# Verification of the document store

This project models the parts of the database whose correctness is hardest to see by reading, and proves properties of
them with Dafny 4.11. `dafny verify dfyconfig.toml` checks everything.

Four components are covered.

**The record store** (`DmsPage`, `DmsPageOps`, `DmsMemory`, `FreeIndex`, `DmsStore`, `DmsFile`, `DmsRun`, `DmsAsWritten`).
Pages of 4 MB hold a header, a slot array that grows up and records that grow down. `DmsFile` runs insert, find, remove,
compaction, segment extension and loading in place, on byte arrays that stand for the mapped segments. It refines a map from
record id to bytes: `DmsStore` states what each operation does to that map and proves what follows for whole runs, and
`DmsRun` says it in terms of requests and replies alone.

**BSON** (`Document`, `BsonFormat`, `BsonGrammar`, `BsonWalk`, `BsonRoundTrip`, `BsonBuilder`, `BsonIterator`, `BsonValid`,
`BsonValidReads`). Nested builders write into one growing buffer and fill in lengths afterwards; the iterator hops by
computed sizes; `valid()` iterates with bounds. `BsonGrammar` states the layout of the BSON specification 1.1 (Grammar), byte
by byte, and that what is written is exactly that, for every type of the library. Constructing a BSONObj on more than 16 MB and
16 KB throws (src/bson/src/bsonobj.h:478-486, src/bson/src/bson-inl.h:207-210), which done(), obj(), asTempObj(),
embeddedObject() and the parser all do; whatever is said of building, reading and parsing has that limit, `LIMIT`, as its
exact bound.

**Reshaping and text** (`DottedDocs`, `EmbeddedStack`, `EmbeddedBuilder`, `DottedNested`, `DottedShape`, `DottedPaths`,
`DottedReopen`, `DottedLookup`; `JsonText`, `JsonGrammar`, `JsonPieces`, `JsonLexemes`, `JsonSpellings`, `JsonAccepted`,
`JsonRoundTrip`, `JsonExample`, `JsonBuilder`, `Json`). Dotted documents become nested ones through a stack of builders and
come back; documents are printed as JSON and parsed again through another stack of builders. Both are followed down to the
bytes in the buffer that the builders share. `JsonLexemes` says what each character, name and number of a text stands for,
also those never printed; `JsonAccepted` that the parser accepts exactly the texts that spell a document.

**Orders, codecs and the thread pool** (`Doubles`, `DoublesIeee`, `Compare`, `CompareOrder`, `KeyOrdering`, `LexNum`,
`DottedNames`; `Md5`, `Md5State`, `Base64`, `Base64Bits`; `BlockingQueue`, `ThreadPool`). `CompareOrder` says which of two
documents comes first without comparing them, and that the comparison says the same. `Bytes` is the shared vocabulary.

Code that changes things step by step is modelled by classes and loops, proved against functions; the theorems are lemmas
about those functions. Where a property does not hold of the code, a lemma says exactly when it does.

## Repairs to the record store

`DmsFile` is the algorithm the store evidently intends. The code departs from it in these places; `DmsAsWritten` shows what
they do as written, and exactly when they do no harm.

- The live test of compaction is inverted (src/dms/dmsFile.cpp:464): `RecoverAlwaysLeavesPage`, `RecoverSoundIff`.
- The index erases by key instead of by iterator (src/dms/dmsFile.cpp:438): `EraseByKeyExactIff`.
- Only the first page of a new segment is initialised (src/dms/dmsFile.cpp:410): `OnlyFirstPageUsable`.
- Loading indexes pages without the base of their segment (src/dms/dmsFile.cpp:153): `LoadExactIff`.
- The search asks for the record without header and slot, and the size limit is the whole page
  (src/dms/dmsFile.cpp:277, 285, 325-331): `PassExact`, `RefusedExample`, `RetryForever`. `DmsFile` asks for all bytes a
  record takes and limits records to what an empty page takes.
- Bounds are one past the end (src/dms/dmsFile.cpp:219, src/include/dmsFile.h:133): `PastLastSlot`, `SegmentMissingIff`.
- `find` follows the offset of an empty slot, for which `remove` tests (src/dms/dmsFile.cpp:193, 253): `FindAsWrittenIff`.
- `remove` has no final return (src/dms/dmsFile.cpp:262-263).

## Where the code does not do what its text or documentation suggests

The models follow the code.

- `lexNumCmp` says that '{' is greater than anything (src/bson/src/bsonobj.cpp:79); the code treats byte 255 that way.
- `md5_append` adds the pending bytes and the new ones as ints (src/bson/src/lib/md5.cpp:341). When the sum wraps around it
  would copy past its block buffer; `Md5State.State.Append` says exactly when.
- Comparing a long with a double converts the long. From 2^53 on this makes the order of documents intransitive
  (`Compare.LargeLongsBlur`); `Compare.TransitiveIff` is the exact condition.
- The scope of code is compared with strcmp from its length bytes on (src/bson/src/bsonobj.cpp:553), so the order does not
  tell scopes apart. `Compare.ScopesIff` and `Compare.ScopesByLength` say exactly which ones it takes for equal.
- Comparing by a key pattern asserts when two documents go on, equal, past the pattern's end marker
  (src/bson/src/bsonobj.cpp:749-750): `KeyOrdering.CompareByPattern`.
- `valid()` takes code with scope for a C string and refuses code with a zero byte, which the builder writes
  (src/bson/src/bson-inl.h:398-401); it does not look at BinData lengths, so it accepts negative ones
  (`BsonValidReads.ObjReads`, with an example in `BsonValidReads.NegativeAccepted`).
- An empty object is kept open "so we can add to it later" (src/bson/src/util/embedded_builder.h:49), but not past a name
  that sorts in between, and an object with fields is not kept open at all: `DottedReopen.OpenedOnceIff` is the exact
  condition for opening each object once.
- The parser refuses six field names that the printer prints like any other (src/bson/src/util/json.cpp:231-238), and text
  does not tell a symbol from a string, a small long from an int, or an object of a `$ref` string and an `$id` of 24
  hexadecimal digits from a reference: `JsonRoundTrip.RoundTripIff`.
- A dot at the start of a name, or two in a row, is lost by `splitDot`: `DottedNested.RoundTripIff`.

## Model

| member | source | states |
|---|---|---|
| DmsPage.Format | src/include/dmsFile.h:24-81 | The file format: page size, the places of the header fields, the sizes of slots and record headers, and the marks of empty slots and dropped records |
| DmsPage.LowUsed | src/dms/dmsFile.cpp:448-480 | Space conservation: records in use and the lowest offset never exceed the page; with no empty slot they meet exactly, so the gap is all the free space |
| DmsPage.LowIsLowest | src/dms/dmsFile.cpp:337-354 | Every live record lies between the lowest offset in use and the record before it |
| DmsPage.Descending | src/dms/dmsFile.cpp:448-480 | Live offsets strictly decrease in slot index and records do not overlap, which is what makes each right-move of compaction safe |
| DmsPageOps.MakeRecord | src/dms/dmsFile.cpp:337-345 | A stored record carries its own size, is not dropped, and its body is the object's bytes |
| DmsPageOps.PageInsertOk | src/dms/dmsFile.cpp:337-354 | Under the two size tests, writing a record keeps the page sound, adds exactly that record as the last slot, leaves all other slots, and takes its bytes and a slot off the free count |
| DmsPageOps.StackedRemove | src/dms/dmsFile.cpp:259-262 | Emptying a slot frees exactly the record's bytes and keeps the order of the others |
| DmsPageOps.PageRemoveOk | src/dms/dmsFile.cpp:229-263 | Removing a record keeps the page sound, empties that slot and no other, and credits its size |
| DmsPageOps.PackedStacked | src/dms/dmsFile.cpp:448-480 | Packing the live records against the page end gives an ordered page with the same bytes in use and its lowest offset at the page size less those bytes |
| DmsPageOps.PackedAllLive | src/dms/dmsFile.cpp:466-477 | Skipping moves before the first empty slot is sound: that prefix is packed already |
| DmsPageOps.PackedKeepsRecords | src/dms/dmsFile.cpp:448-480 | Compaction keeps the bytes and the slot number of every live record |
| DmsPageOps.CompactKeep | src/dms/dmsFile.cpp:461-478 | A slot that is empty, or before the first empty one, needs no write for the loop's invariant to go on |
| DmsPageOps.CompactMove | src/dms/dmsFile.cpp:466-472 | One overlapping move clobbers no record that has moved or has still to move |
| DmsPageOps.CompactDone | src/dms/dmsFile.cpp:479 | Storing the final right edge gives a sound, packed page whose contiguous gap is its free count |
| DmsPageOps.CompactionNeedsDeadSlot | src/dms/dmsFile.cpp:314-323 | The gap never exceeds the free count, and insert asks for compaction only when some slot is empty |
| DmsMemory.Move | src/dms/dmsFile.cpp:470 | memmove with overlap: the destination gets the old source bytes, nothing else changes |
| DmsMemory.RecoverSpace | src/dms/dmsFile.cpp:448-480 | The in-place loop packs the page: same records under the same slots, same free count, gap equal to it, bytes outside the page untouched |
| FreeIndex.UpdateOk | src/dms/dmsFile.cpp:428-446 | Re-keying one page keeps exactly one index entry per page, keyed by its free bytes |
| FreeIndex.ExtendOk | src/dms/dmsFile.cpp:416-420 | Indexing a new page under the next id keeps the index exact |
| FreeIndex.FindPageBestFit | src/dms/dmsFile.cpp:361-369 | The search finds a page with more than the bytes asked for, the tightest such page, or proves there is none |
| FreeIndex.IndexDetermined | src/dms/dmsFile.cpp:140-165 | An exact index is determined by the page headers, up to the order of pages with equal free space |
| DmsStore.PageStepOk | src/dms/dmsFile.cpp:428-446 | Replacing a page by a sound one and re-keying its entry keeps the whole store sound |
| DmsStore.CompactStep | src/dms/dmsFile.cpp:321-323 | Compaction of a page is invisible in the map from ids to bytes |
| DmsStore.ExtendStep | src/dms/dmsFile.cpp:371-426 | Extending the file is invisible in the map |
| DmsStore.IssuedForever | src/dms/dmsFile.cpp:347-350 | Over every run, an id once issued stays issued |
| DmsStore.NeverReissued | src/dms/dmsFile.cpp:347-350 | Over every run, no two inserts return the same id |
| DmsStore.StaysUntilRemoved | src/dms/dmsFile.cpp:170-359 | Over every run, an id denotes exactly the bytes inserted under it until it is removed, and nothing afterwards |
| DmsStore.NothingElse | src/dms/dmsFile.cpp:170-204 | Over every run, an id that no insert returned denotes nothing |
| DmsFile.DmsFile.SearchSlot | src/dms/dmsFile.cpp:206-227 | Succeeds exactly for slots in range, with the slot's entry |
| DmsFile.DmsFile.Find | src/dms/dmsFile.cpp:170-204 | Succeeds exactly when the id denotes something in the map, and returns exactly those bytes |
| DmsFile.DmsFile.Remove | src/dms/dmsFile.cpp:229-263 | Succeeds exactly for live ids, removes that id and disturbs no other; a failed call changes nothing |
| DmsFile.DmsFile.SearchEntry | src/dms/dmsFile.cpp:433-441 | The scan of equal_range finds the page's own entry, if it is there |
| DmsFile.DmsFile.UpdateFreeSpace | src/dms/dmsFile.cpp:428-446 | Header count and index entry change together, by the same amount |
| DmsFile.DmsFile.ExtendSegment | src/dms/dmsFile.cpp:371-426 | 32 sound, empty, indexed pages are added; the map and all old pages stay |
| DmsFile.DmsFile.MakeRoom | src/dms/dmsFile.cpp:314-335 | A page with enough free bytes takes the record after at most one compaction: the second size test never fails. Where the gap suffices nothing is moved |
| DmsFile.DmsFile.EnsureRoom | src/dms/dmsFile.cpp:283-306 | The retry loop ends, with at most one extension, and extends exactly when no page has room |
| DmsFile.DmsFile.InsertInto | src/dms/dmsFile.cpp:337-354 | The writes add the record under a new id, keep the store sound, and leave the record's bytes where the caller's copy points |
| DmsFile.DmsFile.Insert | src/dms/dmsFile.cpp:265-359 | An object is stored if and only if every empty page has room for it with its record header and its slot; then it is stored under a new id, no other id is disturbed, and the result is the object. The file grows, by one segment, if and only if the object is stored and no page had room |
| DmsFile.EmptyPageTakesIff | src/dms/dmsFile.cpp:325-331 | All empty pages have room for an object, or none has: if with its overhead it is no longer than a page without its header |
| DmsFile.DmsFile.LoadData | src/dms/dmsFile.cpp:109-168 | Loading rebuilds an exact index, the one there was before, from the page headers alone |
| DmsRun.Serve | src/dms/dmsFile.cpp:170-359 | Each call on a sound file is answered by the map in front of it and changes the map as one step of a run |
| DmsRun.Talk | src/dms/dmsFile.cpp:170-359 | From a new file on, any sequence of inserts, removes, finds and reloads gives replies that fit together |
| DmsRun.DocumentsAreObjects | src/dms/dmsFile.cpp:337-345 | The bytes of any document whose length fits its length field can be asked to be stored |
| DmsRun.ReadsBack | src/dms/dmsFile.cpp:170-204 | In every such exchange a find returns exactly the bytes whose insert was answered with that id, until someone asks to remove it, and nothing from then on, whatever happens in between |
| DmsRun.DropsOnce | src/dms/dmsFile.cpp:229-263 | Of all requests to remove an id, exactly the first after its insertion succeeds |
| DmsRun.IdsDiffer | src/dms/dmsFile.cpp:347-350 | No two inserts are answered with the same id |
| DmsRun.NotGiven | src/dms/dmsFile.cpp:170-204 | An id that no insert was answered with is never found |
| DmsFile.SegmentFormat | src/include/dmsFile.h:83-87 | A segment has 128 MB and holds whole pages |
| DmsFile.FreshSegment | src/dms/dmsFile.cpp:402-413 | Every page of a new segment is initialised and empty |
| DmsFile.FreshPageFits | src/dms/dmsFile.cpp:285-305 | After an extension the search finds a page for any record within the limit |
| DmsAsWritten.RecoverAlwaysLeavesPage | src/dms/dmsFile.cpp:461-478 | As written, compaction follows an empty slot out of the page whenever insert calls it |
| DmsAsWritten.RecoverSoundIff | src/dms/dmsFile.cpp:461-479 | Where the loop as written does return, it keeps the page sound exactly when the page has no slots |
| DmsAsWritten.EraseByKeyExactIff | src/dms/dmsFile.cpp:433-445 | Erasing by page id keeps the index exact if and only if the page, and no other, has as many free bytes as its id |
| DmsAsWritten.LoadExactIff | src/dms/dmsFile.cpp:150-153 | Loading as written restores the index if and only if the file has at most one segment |
| DmsAsWritten.PassExact | src/dms/dmsFile.cpp:285-335 | As written: the file is extended exactly when no page has more free bytes than the record; otherwise the search picks a page without room for header and slot exactly if there is one; the record is refused exactly if, besides, the free bytes of that page are in one piece, and compaction is asked for exactly if they are not and the piece is too short |
| DmsAsWritten.RetryForever | src/dms/dmsFile.cpp:277-305 | As written, records between the usable size of a page and a whole page extend the file without end |
| DmsAsWritten.RefusedExample | src/dms/dmsFile.cpp:325-335 | A record refused although an empty page could take it |
| DmsAsWritten.OnlyFirstPageUsable | src/dms/dmsFile.cpp:410-413 | As written, only the first page of a segment gets a header, and no record fits a page without one |
| DmsAsWritten.FindAsWrittenIff | src/dms/dmsFile.cpp:185-200 | As written, find gives exactly the live records of the slot array, and follows exactly the empty slots out of the page |
| DmsAsWritten.PastLastSlot | src/dms/dmsFile.cpp:219-224 | The slot that the bound admits by mistake is, on a full page, the size word of the last record |
| DmsAsWritten.SegmentMissingIff | src/include/dmsFile.h:131-138 | As written, a page id leads behind the list of segments exactly when it is the number of pages |
| BsonBuilder.BufBuilder.Grow | src/bson/src/util/builder.h:187-208 | Keeps the bytes written so far, through reallocation, and throws exactly when the new size would exceed 64 MB |
| BsonBuilder.BufBuilder.AppendBuf | src/bson/src/util/builder.h:166-168 | The bytes follow what was there; up to half the limit it never throws |
| BsonBuilder.BufBuilder.PutInt | src/bson/src/bsonobjbuilder.h:692-694 | Overwrites four bytes in place and nothing else |
| BsonBuilder.BSONObjBuilder.constructor | src/bson/src/bsonobjbuilder.h:87-91 | A builder of its own starts behind reference count and length |
| BsonBuilder.BSONObjBuilder.Nested | src/bson/src/bsonobjbuilder.h:97-100 | A nested builder starts at the end of the shared buffer and keeps every byte before its own offset |
| BsonBuilder.BSONObjBuilder.Start | src/bson/src/bsonobjbuilder.h:176-202 | subobjStart, subarrayStart and every append begin with type byte and terminated name |
| BsonBuilder.BSONObjBuilder.AppendAs | src/bson/src/bsonobjbuilder.h:130-139 | An element under another name adds exactly its encoding under that name; no object is constructed on it |
| BsonBuilder.BSONObjBuilder.Sub | src/bson/src/bsonobjbuilder.h:176-180 | A nested builder under a name starts behind the element header, on the same buffer, with every byte before it kept |
| BsonBuilder.BSONObjBuilder.DoneFast | src/bson/src/bsonobjbuilder.h:685-698 | The length put at the builder's offset is the span from there to the end marker; bytes before and between are kept |
| BsonBuilder.BSONObjBuilder.Done | src/bson/src/bsonobjbuilder.h:575-591 | done() and obj() do the same and throw exactly if the span is longer than a BSONObj can be |
| BsonBuilder.BSONObjBuilder.CheckObject | src/bson/src/bsonobj.h:478-486 | Constructing a BSONObj throws exactly for stored sizes that are not positive or above the limit |
| BsonBuilder.BSONObjBuilder.AsTempObj | src/bson/src/bsonobjbuilder.h:604-609 | A look at the object so far, if it is within the limit of a BSONObj; afterwards the builder stands as before |
| BsonBuilder.BSONObjBuilder.AppendFields | src/bson/src/bsonobjbuilder.h:123-541 | Appending every field, embedded ones through nested builders, adds exactly their encoding to the buffer, and throws if an embedded object is too long for a BSONObj |
| BsonBuilder.BSONObjBuilder.AppendObject | src/bson/src/bsonobjbuilder.h:165-180 | A nested builder on the shared buffer leaves exactly the encoded document behind the old contents, length included, and throws if it is too long for a BSONObj |
| BsonBuilder.BSONObjBuilder.AppendCodeWScope | src/bson/src/bsonobjbuilder.h:529-538 | Total size, sized code and scope bytes, as the layout of code with scope |
| BsonBuilder.BSONObjBuilder.Build | src/bson/src/bsonobjbuilder.h:575-597 | Building a document of any depth throws if and only if its encoding is longer than a BSONObj can be, and otherwise leaves that encoding behind the reference count: neither the buffer's limit nor an embedded object interferes |
| BsonBuilder.Limits | src/bson/src/util/builder.h:187-208 | The limits of buffers and objects, and that a buffer takes any object however it has grown |
| BsonGrammar.DocumentIff | src/bson/src/bsonobjbuilder.h:123-698 | The bytes of a document are exactly those that the grammar of the BSON specification has for it: type bytes, names, lengths, numbers with the least significant byte first, booleans, strings, end markers, at every nesting |
| BsonGrammar.LittleAt | src/bson/src/util/builder.h:144-164 | Byte k of a number is the number divided by the k-th power of 256, modulo 256 |
| BsonGrammar.ScalarsRead | src/bson/src/bsonelement.h:164-201 | Whatever wrote them: ints, longs, doubles, dates and time stamps are read by their bytes, the least significant first, and a boolean is true unless its byte is zero |
| BsonGrammar.StringRead | src/bson/src/bsonelement.h:236-262 | A string is read if its stored size is positive and inside the memory, and is that many bytes less one |
| BsonIterator.BSONObjIterator.constructor | src/bson/src/bsonobjiterator.h:36-44 | Iteration runs from behind the length to the end marker's place |
| BsonIterator.BSONObjIterator.Next | src/bson/src/bsonobjiterator.h:60-71 | Returns an element if and only if one, or an end marker, lies at the position before the end; then it is that element, and the position moves by exactly its computed size, or by one behind an end marker |
| BsonIterator.NothingThere | src/bson/src/bsonobjiterator.h:60-71 | Where there is neither an element nor an end marker, the walk gives up |
| BsonIterator.ReadDoc | src/bson/src/bsonobjiterator.h:36-71 | Iterators, recursively and only on objects a BSONObj can be constructed on, give exactly the walk of the bytes |
| BsonIterator.BuildAndRead | src/bson/src/bsonobjbuilder.h:575-597 | Building succeeds if and only if the encoding is within the limit of a BSONObj. Then the bytes are those that the grammar has for the document, and reading them gives it back if and only if names and regular expressions hold no zero byte |
| BsonRoundTrip.PayloadSizeRead | src/bson/src/bson-inl.h:506-570 | For every type the size the iterator computes is the size that was written |
| BsonRoundTrip.WalkDocRead | src/bson/src/bsonobjiterator.h:60-71 | Wherever the bytes of a document within the limit of a BSONObj lie in memory, walking from there returns the same names, types and values in order |
| BsonRoundTrip.WalkDocClean | src/bson/src/bsonelement.h:435-439 | Whatever a walk of any bytes returns has names and regular expressions without zero bytes |
| BsonRoundTrip.RoundTripIff | src/bson/src/bson-inl.h:506-570 | For all documents that fit the length field: walking the encoding gives the document back if and only if it is within the limit of a BSONObj and names and regular expressions hold no zero byte |
| BsonValid.CheckObj | src/bson/src/bsonobj.cpp:669-695 | The loop of valid(), with its recursion, decides the recursive definition of validity |
| BsonValid.BoundedSizeRead | src/bson/src/bson-inl.h:416-504 | The bounded size computation gives the written size at every element of a built document |
| BsonValid.ScopedValid | src/bson/src/bson-inl.h:392-408 | Built code with scope passes the five checks exactly when its code holds no zero byte |
| BsonValid.ValueValid | src/bson/src/bson-inl.h:373-414 | Any built value passes the per-element checks and the recursion, exactly when no code with scope in it holds a zero byte |
| BsonValid.ValidIff | src/bson/src/bsonobj.cpp:669-695 | A built document is valid at every level if and only if it is within the size limit and no code with scope holds a zero byte |
| BsonValid.ZeroCodeRefused | src/bson/src/bson-inl.h:398-401 | A document within the limit whose code with scope is a zero byte: valid() refuses what the builder writes |
| BsonValidReads.ValidEnd | src/bson/src/bsonobj.cpp:677-681 | An accepted object ends with its end marker, inside the memory |
| BsonValidReads.TextEnds | src/bson/src/bson-inl.h:373-391 | Every string, symbol, code and reference that valid() comes to in an accepted object has a text inside the memory, and its last byte by the stored size is zero |
| BsonValidReads.ObjectsAccepted | src/bson/src/bson-inl.h:392-408 | Every embedded object is accepted itself; code with scope has a C string of its stored size, an accepted object right behind it, and a total size that fits both |
| BsonValidReads.SizesAgree | src/bson/src/bson-inl.h:416-504 | In an accepted object the bounded and the unbounded size computation agree, strings and regular expressions included |
| BsonValidReads.ObjReads | src/bson/src/bsonobj.cpp:669-695 | For arbitrary bytes that valid() accepts: the plain iteration reads them to the end if and only if no BinData length is negative |
| BsonValidReads.NegativeAccepted | src/bson/src/bson-inl.h:373-414 | Eleven bytes with a BinData of length -1 that valid() accepts and the iteration cannot read |
| Doubles.RoundMonotone | src/bson/src/bsonelement.h:557-568 | Converting longs to doubles, to nearest with ties to even, never reverses an order |
| Doubles.ToDoubleExact | src/bson/src/bsonelement.h:563-564 | The conversion is exact up to 2^53 |
| Doubles.LongsScaled | src/bson/src/bsonelement.h:557-568 | Converted longs keep their order, and coincide exactly when they round alike |
| DoublesIeee.DoubleReal | src/bson/src/bsonelement.h:557-568 | The value of a finite double is the number that section 3.4 of IEEE 754-2008 defines, as a real: sign, biased exponent, fraction, and subnormals |
| DoublesIeee.ToDoubleNearest | src/bson/src/bsonelement.h:563-564 | Converting a long: no double is nearer, and where a different one is as near its last bit is odd, as section 4.3.1 of IEEE 754-2008 asks for |
| DoublesIeee.ToDoubleIsDouble | src/bson/src/bsonelement.h:563-564 | And the result is a double |
| CompareOrder.DocIff | src/bson/src/bsonobj.cpp:697-772 | woCompare is negative, zero or positive exactly if the first document comes before, is like, or comes after the second: by the first fields that are not alike, the other way round under a descending key, and the shorter first if there are none |
| CompareOrder.FieldIff | src/bson/src/bson-inl.h:39-53 | Of two elements the type decides, then the name as a C string, then the value |
| CompareOrder.ValueIff | src/bson/src/bsonobj.cpp:465-564 | And of two values, type by type: false before true, the earlier date, the lesser number, the string with the lesser first differing byte or the shorter one, the shorter block, the pattern before its flags, the code before its scope |
| CompareOrder.NumbersIff | src/bson/src/bsonobj.cpp:485-516 | Two longs by their values; other numbers by the reals they are as doubles, with infinities and what is not a number alike and below all |
| CompareOrder.LexiIff | src/bson/src/bsonobj.cpp:517-564 | Blocks and strings by their first differing byte, a proper start first |
| CompareOrder.PlaceIff | src/bson/src/bsonelement.h:464-507 | The order of the types, from the least key to the greatest |
| Compare.DocSwap | src/bson/src/bsonobj.cpp:697-772 | Exchanging two documents negates the result, for every key order, with or without names |
| Compare.ValueSwap | src/bson/src/bsonobj.cpp:465-564 | Exchanging two values negates the result, for every type |
| Compare.NumberChain | src/bson/src/bsonobj.cpp:485-516 | Mixed comparison of ints, longs and doubles, not-finite ones least, is transitive where no number blurs two longs |
| Compare.ValueChain | src/bson/src/bsonobj.cpp:465-564 | Value comparison is transitive, strictly where a step is strict, at every nesting |
| Compare.FieldChain | src/bson/src/bson-inl.h:39-53 | So is element comparison: type first, then name, then value |
| Compare.DocChain | src/bson/src/bsonobj.cpp:731-772 | So is document comparison for every key order; with DocSwap it is a total preorder |
| Compare.TransitiveIff | src/bson/src/bsonobj.cpp:485-516 | Over all documents with numbers from a set, comparison is transitive if and only if the set has no two longs that become the double of a third, non-long number in it |
| Compare.SmallLongsSharp | src/bson/src/bsonobj.cpp:485-516 | Longs up to 2^53 satisfy that condition |
| Compare.LargeLongsBlur | src/bson/src/bsonobj.cpp:485-516 | 2^53, its successor and the double 2^53 do not |
| Compare.ScopesIff | src/bson/src/bsonobj.cpp:546-557 | Two pieces of code with scope, the code without zero bytes, compare equal if and only if the code is the same and the scopes' bytes are the same up to the first zero byte |
| Compare.ScopesByLength | src/bson/src/bsonobj.cpp:546-557 | For all scopes that a BSONObj can hold that is: the same code, and lengths whose four bytes are the same up to the first zero byte. Nothing else of a scope matters |
| Compare.ScopesAlike | src/bson/src/bsonobj.cpp:546-557 | So any two scopes of one length compare equal under the same code, and any two of 256 and 512 bytes |
| KeyOrdering.SetBit | src/bson/src/ordering.h:59-60 | Setting bit n sets that bit and no other, for all 32 bits |
| KeyOrdering.NegativeIff | src/bson/src/ordering.h:59-60 | A key descends exactly for ints and longs below zero and for doubles with the sign bit that are neither minus zero nor not a number |
| KeyOrdering.Make | src/bson/src/ordering.h:50-64 | Refuses exactly patterns of more than 32 keys; otherwise a bit is set exactly for each descending key |
| KeyOrdering.CompareByOrdering | src/bson/src/bsonobj.cpp:697-728 | The loop with its moving mask compares by the directions in the bits, also past the 32nd field |
| KeyOrdering.CompareByPattern | src/bson/src/bsonobj.cpp:731-772 | The loop with the pattern's iterator compares by the pattern, and asserts exactly when both documents go on, equal, past its end marker |
| KeyOrdering.RunsOutExample | src/bson/src/bsonobj.cpp:749-750 | A pair of documents and a pattern on which the iterator over the pattern asserts |
| KeyOrdering.OrderingAgrees | src/bson/src/ordering.h:41-64 | Bits made from a pattern give the pattern's result on all pairs of documents |
| KeyOrdering.CompareBothWays | src/bson/src/bsonobj.cpp:697-772 | For every pattern of at most 32 keys and all documents: where comparing by pattern returns, the fast form returns the same |
| LexNum.RunsCompare | src/bson/src/bsonobj.cpp:108-122 | Comparing digit runs by length and then bytewise compares the numbers they denote, of any size |
| LexNum.LexNumCmp | src/bson/src/bsonobj.cpp:80-150 | Terminates, and its sign is the lexicographic order of tokens: characters, numbers by value ignoring leading zeros, byte 255 greatest |
| LexNum.OrderIsTotalPreorder | src/bson/src/bsonobj.cpp:1360-1377 | That order is antisymmetric, transitive and total, as its use in qsort needs, with equality exactly for equal token sequences |
| LexNum.FirstsDecide | src/bson/src/bsonobj.cpp:80-150 | Strings with different first bytes: characters by their signed value, below numbers, below byte 255 |
| LexNum.SameFirst | src/bson/src/bsonobj.cpp:80-150 | Strings with the same first byte, not a digit: by what is behind it |
| LexNum.NumbersDecide | src/bson/src/bsonobj.cpp:90-128 | Strings that begin with digits: by the numbers, and then by what is behind them |
| LexNum.EmptyIsFirst | src/bson/src/bsonobj.cpp:145-150 | The empty string comes before every other |
| DottedNames.CompareDottedFieldNames | src/bson/src/bsonobj.cpp:594-634 | The loop gives the component order, and hits its cap exactly when the comparison takes more than 1024 * 1024 iterations |
| DottedNames.CompareSwap | src/bson/src/bsonobj.cpp:594-634 | The swapped call gives exactly the negated result |
| DottedNames.CompareTransitive | src/bson/src/bsonobj.cpp:594-634 | The sign of the result is a transitive order |
| DottedNames.SubfieldIff | src/bson/src/bsonobj.cpp:602-608 | The subfield results occur if and only if one component list is a proper prefix of the other, up to equality in the number-aware order |
| DottedNames.BeforeIff | src/bson/src/bsonobj.cpp:609-634 | Before or after is decided by the first components that are not equal, in their order |
| DottedNames.ComponentsAre | src/bson/src/bsonobj.cpp:594-634 | The components hold no dots and make up the name, but for a dot at its end |
| DottedDocs.Nested2Dotted | src/bson/src/bsonobj.cpp:1142-1156 | The recursion adds exactly the encoding of the flattened document to the buffer, and throws if the buffer would outgrow its limit, which it does not up to half of it |
| DottedDocs.SortedMaps | src/bson/src/bson-inl.h:308-317 | The map of a document has ascending distinct names, each with its last value |
| DottedDocs.MapUnique | src/bson/src/bson-inl.h:308-317 | Those two facts determine the map |
| DottedDocs.Bson2Map | src/bson/src/bson-inl.h:309-317 | The loop builds that map |
| DottedDocs.FlattenFlat | src/bson/src/bsonobj.cpp:1142-1156 | No object survives flattening |
| DottedDocs.StrippedIff | src/bson/src/util/embedded_builder.h:66-73 | splitDot keeps a name whole if and only if no component but the last is empty; otherwise it loses one dot |
| EmbeddedBuilder.EmbeddedBuilder.AddBuilder | src/bson/src/util/embedded_builder.h:76-80 | A builder for an embedded object is opened behind its header in the shared buffer, and no byte of the open builders is lost |
| EmbeddedBuilder.EmbeddedBuilder.PopBuilder | src/bson/src/util/embedded_builder.h:81-85 | Finishing the top builder completes its object in the builder below: at every moment the buffer holds exactly the bytes of what has been appended to the open builders, or an exception has been thrown, with a reason: an object too long for a BSONObj, or bytes for more than half of the limit of the buffer |
| EmbeddedBuilder.EmbeddedBuilder.PrepareContext | src/bson/src/util/embedded_builder.h:32-47 | The three loops keep the builders the name goes through, finish the rest and open the missing ones; the string access fails exactly when the name is that of an open builder |
| EmbeddedBuilder.EmbeddedBuilder.AppendAs | src/bson/src/util/embedded_builder.h:48-56 | The element lands in the innermost builder on its path, in the buffer as in the levels; an empty object only opens its path |
| EmbeddedBuilder.EmbeddedBuilder.Done | src/bson/src/util/embedded_builder.h:61-64 | Finishing all builders leaves the encoding of the whole they stand for behind what the buffer held; an exception has the reasons above |
| EmbeddedStack.PopWhole | src/bson/src/util/embedded_builder.h:81-85 | Finishing a builder early or late makes no difference to the whole |
| EmbeddedStack.LaidPop | src/bson/src/util/embedded_builder.h:81-85 | On bytes: writing length and end marker of the top object turns the buffer of the open builders into that of the builders without the top one |
| EmbeddedStack.LaidLength | src/bson/src/util/embedded_builder.h:74-85 | While builders are open, the buffer lacks exactly one byte for each of them: their end markers |
| EmbeddedStack.PopFits | src/bson/src/util/embedded_builder.h:81-85 | After a builder is finished everything fits if and only if everything did before and its own object does |
| DottedNested.ThrowsIff | src/bson/src/util/embedded_builder.h:34-40 | The string access of prepareContext fails exactly for names that are the dotted path of an open builder |
| DottedNested.NeverThrows | src/bson/src/bsonobj.cpp:1158-1166 | In ascending order of names no name is that of an open builder, whatever the values and the dots: the string access of prepareContext never fails |
| DottedNested.Dotted2Nested | src/bson/src/bsonobj.cpp:1158-1166 | The loop over the map adds exactly the encoding of what the builders stand for to the buffer. It throws if an object made by it is too long for a BSONObj or the buffer would outgrow its limit, and does not if all fit and half of the limit suffices |
| DottedNested.ToNested | src/bson/src/bson-inl.h:283-287 | The bytes of the nested document, taken with obj(); it throws if and only if that document is too long for a BSONObj |
| DottedNested.ToDotted | src/bson/src/bson-inl.h:275-279 | The same for the flattened document |
| DottedNested.BuiltFlat | src/bson/src/bsonobj.cpp:1142-1166 | Flattening what was nested gives the flattened elements in order, under the names splitDot leaves: for all documents, objects among the values or not |
| DottedNested.RoundTripIff | src/bson/src/bsonobj.cpp:1142-1166 | nested2dotted undoes dotted2nested, up to sorting, if and only if no value is an object and no name has an empty component before its last |
| DottedNested.LeadingDotLost | src/bson/src/util/embedded_builder.h:66-73 | A name with a leading dot does not come back |
| DottedNested.ThereAndBack | src/bson/src/bson-inl.h:275-287 | The two calls one after the other, on bytes: they throw if and only if the nested document or what comes back is too long for a BSONObj; otherwise the bytes are those of the sorted document if and only if no value is an object and every name is good |
| DottedShape.SiblingsDistinct | src/bson/src/util/embedded_builder.h:30-47 | Each intermediate object is opened exactly once: side by side, embedded objects have different names at every level, if no value is an object |
| DottedPaths.PrepareOpens | src/bson/src/util/embedded_builder.h:32-47 | Preparing for a name opens exactly the objects on its path that are not on the path of the open builders |
| DottedPaths.DistinctOnce | src/bson/src/util/embedded_builder.h:30-47 | Where embedded siblings have different names, no path is that of two objects |
| DottedPaths.OnceDistinct | src/bson/src/util/embedded_builder.h:30-47 | And where no path is that of two objects, embedded siblings have different names |
| DottedPaths.BuiltOpens | src/bson/src/bsonobj.cpp:1158-1166 | For any values: a path is opened as often as the names, in their order, get on it, and once more for each object of that path that a value brings |
| DottedReopen.AroundIff | src/bson/src/util/embedded_builder.h:66-73 | The builders that splitDot opens for a name have exactly those paths of non-empty components that the name, up to a dot, starts with |
| DottedReopen.OpenedOnceIff | src/bson/src/util/embedded_builder.h:48-56 | For any values and any names in ascending order: each object is opened exactly once, so that embedded siblings have different names at every level, if and only if no empty object with a name of non-empty components is followed by a name that does not go through it and later by one that does, no other element goes through an object with fields or puts an object in its place, and inside those objects embedded siblings differ as well |
| DottedReopen.OpenedOnceGoodNames | src/bson/src/util/embedded_builder.h:48-56 | Under good names the same without looking at the components: whether one name goes through another is whether it starts with it and a dot |
| DottedReopen.EmptyObjectReopened | src/bson/src/util/embedded_builder.h:48-53 | Three names under which an object is opened twice |
| DottedReopen.FullObjectOverlaid | src/bson/src/util/embedded_builder.h:48-56 | An object with a field under one name and a name through it: two objects of one name |
| DottedShape.BuiltShape | src/bson/src/bsonobj.cpp:1158-1166 | Under good names, what is built has dot-free names, no empty and no repeated objects, and flattens to the sorted elements |
| DottedLookup.FindField | src/bson/src/bson-inl.h:150-158 | The loop finds the first field of a name |
| DottedLookup.FindFieldDotted | src/bson/src/bson-inl.h:683-701 | The recursion looks up the whole name, then the part before the first dot and the rest inside |
| DottedLookup.FoundIff | src/bson/src/bson-inl.h:683-701 | For every document and name: a value is found exactly if the name leads to it, to the first field of that name or else through the first object or array under its first component, again and again |
| DottedLookup.LookupElement | src/bson/src/bson-inl.h:683-701 | In a document of that shape, every flattened element is found under its dotted name unless another element's name is a dotted start of it |
| DottedLookup.LookupIff | src/bson/src/bson-inl.h:683-701 | For values that are neither objects nor arrays: lookup in the nested document gives the flat value if and only if no name is a dotted start of the one looked up; otherwise it gives nothing |
| DottedLookup.LookupThrough | src/bson/src/bson-inl.h:683-701 | With arrays among the values the success half holds as well |
| DottedLookup.NestAndFind | src/bson/src/bson-inl.h:283-287 | Nest and look up, on bytes, against getField on the flat document: it throws if and only if the nested document is too long for a BSONObj; otherwise the two agree if no name is a dotted start of the one looked up, and without arrays the nested lookup gives nothing if one is |
| JsonText.EscapeString | src/bson/src/bsonobj.cpp:152-192 | The loop escapes byte by byte |
| Json.JsonString | src/bson/src/bsonobj.cpp:641-667 | The printing loop, pretty or not, gives the text of the members in order, undefined ones left out |
| Json.ValueString | src/bson/src/bsonobj.cpp:194-257 | The text of a string, symbol, int, long, boolean, null, array or embedded object, and no text for an undefined value |
| JsonExample.ListedPlain | src/bson/src/bsonobj.cpp:231-253 | An array on one line, to the character |
| JsonExample.ListedPretty | src/bson/src/bsonobj.cpp:231-253 | The same on lines of its own, indented |
| JsonExample.NestedBoth | src/bson/src/bsonobj.cpp:641-667 | Members on one line and on several |
| JsonExample.ListedBack | src/bson/src/util/json.cpp:134-146 | The first of these texts is read back, its elements named from zero on |
| JsonLexemes.CharIs | src/bson/src/util/json.cpp:478-494 | What any character inside quotes stands for, escaped or not, and which do not match |
| JsonLexemes.EscapeLetters | src/bson/src/util/json.cpp:156-196 | The letters that stand for control characters, which are those, and no others do |
| JsonLexemes.Utf8Decoded | src/bson/src/util/json.cpp:199-214 | An escaped code unit becomes bytes that decode, by section 3 of RFC 3629, to that unit, and as few as can be |
| JsonLexemes.DecodedUnique | src/bson/src/util/json.cpp:199-214 | Which determines them |
| JsonLexemes.HexDigitIs | src/bson/src/util/json.cpp:199-201 | Hexadecimal digits of both cases are read, and printed in lower case |
| JsonLexemes.HexOnly | src/bson/src/util/json.cpp:199-201 | And no other byte is one |
| JsonLexemes.SpaceIs | src/bson/src/util/json.cpp:596-617 | White space is these six characters |
| JsonLexemes.SkipIs | src/bson/src/util/json.cpp:596-617 | White space is skipped up to the first byte that is none |
| JsonLexemes.NameCharIs | src/bson/src/util/json.cpp:523-524 | An identifier is of letters, dollar signs and underscores, and of digits behind its first character |
| JsonLexemes.NameIs | src/bson/src/util/json.cpp:454-457 | A name in either quotes unless reserved, or an identifier as long as it can be |
| JsonLexemes.ReservedIs | src/bson/src/util/json.cpp:231-238 | The six reserved names, spelled out |
| JsonLexemes.NumberMeans | src/bson/src/util/json.cpp:512-520 | Any digits with or without a sign: up to 19 of them, as the number they write, an int or a long as it fits; a real number if a point or an exponent follows |
| JsonLexemes.DigitsAre | src/bson/src/bsonobj.cpp:211-220 | A number is printed by its decimal digits, without leading zeros |
| JsonLexemes.OidIs | src/bson/src/util/json.cpp:329-337 | An object id is read two digits to a byte |
| JsonLexemes.MarksAre | src/bson/src/util/json.cpp:452-470 | Brackets, quotes, separators and literal values, spelled out |
| JsonPieces.CharsBack | src/bson/src/util/json.cpp:478-494 | The str rule undoes escape for arbitrary bytes |
| JsonPieces.NumberBack | src/bson/src/util/json.cpp:516-520 | A printed int or long is no real number to the grammar and is read back with its value, as an int where it fits one |
| JsonPieces.SpecialIff | src/bson/src/util/json.cpp:460-474 | A printed object looks like a date, an object id, binary data or a regular expression exactly when its first name is the one that starts such a form |
| JsonRoundTrip.RefBack | src/bson/src/util/json.cpp:528-540 | A printed object is parsed as a reference if and only if it has two members: `$ref` with a string or symbol and `$id` with 24 hexadecimal digits; then it is the reference to that name space and id, and its text is used up |
| JsonRoundTrip.ValueBack | src/bson/src/util/json.cpp:460-474 | A printed value, anywhere in a text, is parsed as what it stands for and up to its end if no name in it is reserved, and otherwise not; it fails if no object in it starts like a date, an object id, binary data or a regular expression |
| JsonRoundTrip.MembersBack | src/bson/src/util/json.cpp:452-457 | So are printed members, up to the closing brace, wherever the first reserved name is |
| JsonRoundTrip.ItemsBack | src/bson/src/util/json.cpp:458-459 | So are printed array elements, under their indexes |
| JsonRoundTrip.PrintThenParse | src/bson/src/util/json.cpp:596-617 | Printing, at any indentation, then parsing, for all trees of strings and symbols of arbitrary bytes, booleans, nulls, ints, longs, objects and arrays: what the text stands for, if no name at any depth is reserved and the result is within the limit of a BSONObj; otherwise it is not parsed, which is a failure unless an embedded object starts like a date, an object id, binary data or a regular expression |
| JsonRoundTrip.DocCanonIff | src/bson/src/bsonobj.cpp:194-257 | What the text stands for is the document itself if and only if it has no symbols, no longs that fit an int, no zero bytes in names, no embedded object that is parsed as a reference, and arrays under their indexes |
| JsonRoundTrip.RoundTripIff | src/bson/src/util/json.cpp:227-241 | For all those trees: the document comes back as it was if and only if text can tell it apart in that sense, no name at any depth is reserved, and it is within the limit |
| JsonAccepted.ReadPrintRead | src/bson/src/util/json.cpp:596-617 | A document that was read from any text and holds no reference is printed and read again as the same document if and only if no embedded object looks like a reference and no name is reserved |
| JsonRoundTrip.ReservedExample | src/bson/src/util/json.cpp:231-238 | A document that is printed and then refused: a reserved name inside an embedded object |
| JsonSpellings.AnySpelling | src/bson/src/util/json.cpp:450-617 | However a document of strings, ints, longs, booleans, nulls, references, arrays and objects is written, with any white space, names bare or in either quotes, any escapes, signs and leading zeros: fromjson gives the document that is meant, if it is within the limit of a BSONObj |
| JsonAccepted.AcceptedIff | src/bson/src/util/json.cpp:450-617 | And it accepts nothing else: a text is read as a document if and only if it is one of the spellings of that document, and the document is within the limit, or there is no text and the document is empty |
| JsonAccepted.SpelledOnce | src/bson/src/util/json.cpp:450-617 | No text spells two documents |
| JsonAccepted.ValueThere | src/bson/src/util/json.cpp:460-474 | Whatever is read as a value is a spelling of it |
| JsonAccepted.LettersThere | src/bson/src/util/json.cpp:478-510 | Whatever is read inside quotes is a spelling of it: an escaped `u` that has no four digits behind it is a letter, one that has them a code unit |
| JsonSpellings.RefRead | src/bson/src/util/json.cpp:528-531 | An embedded object is read as a reference if and only if its two members are spelled as the grammar has them |
| JsonSpellings.ValueRead | src/bson/src/util/json.cpp:460-474 | So it does for a value anywhere in a text, up to its end |
| JsonSpellings.LettersRead | src/bson/src/util/json.cpp:478-510 | And for the characters between either quotes, however they are escaped |
| JsonBuilder.ObjectBuilder.Push | src/bson/src/util/json.cpp:71-84 | A builder is pushed on all three stacks in step, behind the element's header in the shared buffer |
| JsonBuilder.ObjectBuilder.PopDone | src/bson/src/util/json.cpp:85-95 | Popping completes the object in the buffer and takes all three stacks back, and throws if the object is too long for a BSONObj |
| JsonBuilder.ObjectBuilder.Chars | src/bson/src/util/json.cpp:478-494 | The character actions collect exactly the string the grammar denotes |
| JsonBuilder.ParseName | src/bson/src/util/json.cpp:454-457 | The name rule sets the name on top of its stack, and refuses reserved ones |
| JsonBuilder.ParseRef | src/bson/src/util/json.cpp:321-344 | The rule for references ends as the grammar says, and a match leaves name space and id in the fields that its action appends |
| JsonBuilder.ParseValue | src/bson/src/util/json.cpp:460-474 | On every text the rule ends as the grammar says; if it matches, the element's encoding has been added to the buffer and the stacks are as before, unless an object in it is too long, which throws |
| JsonBuilder.ParseObject | src/bson/src/util/json.cpp:452-453 | An embedded object parses into a nested builder on the shared buffer, and throws if it is too long for a BSONObj |
| JsonBuilder.ParseMembers | src/bson/src/util/json.cpp:453 | Members are appended in order, unless an object among them is too long; only the top of the stacks changes |
| JsonBuilder.ParseItems | src/bson/src/util/json.cpp:134-146 | Elements get their indexes as names from the index stack, with the same exception |
| Json.ParseWhole | src/bson/src/util/json.cpp:596-617 | It succeeds exactly when the whole text matches and the document is within the limit of a BSONObj; then all three stacks are empty at the end and the bytes are the encoding of the document |
| Json.FromJson | src/bson/src/util/json.cpp:596-617 | fromjson accepts exactly the texts that spell a document within the limit of a BSONObj, and yields the encoding of that document |
| Json.PrintAndParse | src/bson/src/util/json.cpp:596-617 | Print and parse, down to bytes: it succeeds if and only if no name at any depth is reserved and the result is within the limit, and gives the encoding of what the text stands for |
| Md5.CountExact | src/bson/src/lib/md5.cpp:333-337 | The two words hold eight times the byte count modulo 2^64 after any append, despite the split carry |
| Md5.OffsetExact | src/bson/src/lib/md5.cpp:327 | The block offset read off the low word is the byte count modulo 64 |
| Md5.FoldAppend | src/bson/src/lib/md5.cpp:351-353 | Processing blocks piece by piece is processing them all |
| Md5.DigestUnique | src/bson/src/lib/md5.cpp:360-381 | The digest defined by sections 3.1 to 3.5 of RFC 1321 is unique |
| Md5.InitialBytes | src/bson/src/lib/md5.cpp:312-320 | The start values are the bytes that section 3.3 of RFC 1321 lists |
| Md5.PaddedBytes | src/bson/src/lib/md5.cpp:363-377 | The padding is one byte 0x80, zero bytes and the length, as short as fills the last block |
| Md5.RegisterPlaces | src/bson/src/lib/md5.cpp:379-380 | Each register has its place in the digest, low-order byte first |
| Md5.LengthWords | src/bson/src/lib/md5.cpp:372-374 | The length field holds the bit count modulo 2^64, low-order word first |
| Md5State.State.constructor | src/bson/src/lib/md5.cpp:312-320 | The state starts as that of the empty message |
| Md5State.State.Append | src/bson/src/lib/md5.cpp:322-358 | After an append the state is that of the concatenation; the copy would leave the buffer exactly when the int sum of pending and new bytes wraps around |
| Md5State.State.Finish | src/bson/src/lib/md5.cpp:360-381 | The result is the digest of everything appended |
| Md5State.DigestOfChunks | src/bson/src/lib/md5.cpp:312-381 | Every way of cutting a message into appends each of which an int can count gives the digest of the message, if and only if for none of them the sum with the bytes pending there wraps around |
| Md5State.WrapExample | src/bson/src/lib/md5.cpp:338-350 | One pending byte and as many more as an int can count |
| Base64.AlphabetIs | src/bson/src/lib/base64.h:30-35 | The alphabet of table 1 of RFC 4648, letter by letter |
| Base64.Vectors | src/bson/src/lib/base64.cpp:28-65 | The test vectors of section 10 of RFC 4648 for a whole group and both tails |
| Base64.RoundTrip | src/bson/src/lib/base64.cpp:28-103 | Decoding an encoding gives the bytes back, for every length |
| Base64.GroupRoundTrip | src/bson/src/lib/base64.cpp:84-102 | So does a single group, whole or padded |
| Base64.CodeChars | src/bson/src/lib/base64.cpp:33-55 | The shifts and masks of the code select the digits of section 4 of RFC 4648 |
| Base64Bits.EncodeBits | src/bson/src/lib/base64.cpp:34-55 | The shifts, masks and joins of the encoder, on bytes as bit vectors, are the quotients and remainders the model computes with |
| Base64Bits.DecodeBits | src/bson/src/lib/base64.cpp:87-92 | So are those of the decoder |
| Base64.Alphabet.constructor | src/bson/src/lib/base64.h:30-43 | The loop fills the decode table with the inverse of the alphabet, zero elsewhere |
| Base64.Alphabet.Encode | src/bson/src/lib/base64.cpp:28-65 | The loop encodes by groups of 24 bits, tails padded as section 4 of RFC 4648 requires |
| Base64.Alphabet.Decode | src/bson/src/lib/base64.cpp:79-103 | Fails exactly on lengths that are no multiple of four, otherwise decodes group by group |
| BlockingQueue.BlockingQueue.Offer | src/include/blockingQueue.h:49-66 | Appends and counts exactly when there is room; otherwise nothing changes |
| BlockingQueue.BlockingQueue.Put | src/include/blockingQueue.h:68-84 | Once there is room, appends and counts |
| BlockingQueue.BlockingQueue.Poll | src/include/blockingQueue.h:86-104 | Takes the front exactly when there is one |
| BlockingQueue.BlockingQueue.Take | src/include/blockingQueue.h:106-124 | Once there is an element, takes the front |
| BlockingQueue.BlockingQueue.SetQueueCount | src/include/blockingQueue.h:40-43 | Setting the count from outside keeps it honest only if it changes nothing |
| ThreadPool.NextInv | src/utils/threadPool.cpp:97-132 | Every atomic step keeps the invariant: the queue is what has been put and not taken, within its bound, and its counter is its length; each taken NULL stopped one worker; each taken task is running or finished, as often as it was taken |
| ThreadPool.RunInv | src/utils/threadPool.cpp:97-132 | The invariant holds in every state of every interleaving |
| ThreadPool.StoppedForever | src/utils/threadPool.cpp:124-129 | A stopped worker takes nothing more, so no worker takes two NULLs |
| ThreadPool.NeedsAsManyNulls | src/utils/threadPool.cpp:320-324 | With fewer NULLs than workers some worker never stops |
| ThreadPool.DownExact | src/utils/threadPool.cpp:315-324 | Once all workers have stopped, every task in front of the last NULL taken has been run exactly as often as it was put, and the queue is what was put behind |
| ThreadPool.CleanShutdown | src/utils/threadPool.cpp:315-324 | With one NULL per worker behind all tasks: every task has been run, each as often as it was put, and the queue is empty |
| ThreadPool.EmptyIff | src/utils/threadPool.cpp:320-324 | At rest the queue is empty if and only if nothing was put behind the last NULL needed |

## Left out

- Files, mapping, sockets, messages, the agent, the client shell, logging: a mapped segment is a byte array, and mapping it
  does not fail.
- Mutexes: operations of the store and of the queue are atomic. The two-mutex protocol of insert, and its error paths that
  leave a mutex locked, are not modelled.
- Liveness of the queue: a wait loop is the condition under which it lets its caller through. Timed waits, the idle flags of
  threads and the deletion of threads in stopAll are not modelled; the pool is a state machine, not a set of classes.
- The file header page of the store and its counters other than the number of pages.
- Md5State.State: the 64 rounds of the block function are a parameter.
- Base64.Alphabet: the self-test of the alphabet is not part of the model.
- BsonBuilder.BufBuilder.Grow: requires that an int can count the new length. Exhausted memory is not modelled; an exception
  is a flag after which nothing takes effect.
- Caching of sizes in elements, reference counts, OID generation, time, numbers appended by smallest type, and the streaming
  interface of the builders.
- BsonValid.CheckObj: an element whose size does not move the iterator forward, on which valid() would not end, and any read
  behind the memory count as not valid.
- BsonValid.ValidIff: speaks of documents whose names and regular expressions hold no zero byte. The builders write others
  as well, but those bytes stand for other documents (`BsonRoundTrip.RoundTripIff`).
- Compare.NumberCompare: doubles are the numbers they stand for, with one class for those that are not finite; the
  difference the code takes has the sign of that comparison.
- EmbeddedBuilder.EmbeddedBuilder: subarrayStartAs is not part of the model. Names come from documents and hold no zero
  byte.
- DottedNested.Dotted2Nested: appending to a buffer that others have filled, it leaves open whether it throws where the bytes
  take more than half of the limit of the buffer and fit it: that depends on the sizes the buffer has gone through. On its
  own (`DottedNested.ToNested`) the condition is exact.
- Comparison and lookup, as functions, take documents of any size, though a BSONObj, and so its embedded objects, cannot be
  longer than the limit.
- Json.ValueString: doubles, dates, object ids, binary data, references, regular expressions, code, time stamps and the keys
  that are least and greatest are printed as nothing here, in place of the forms the code gives them.
- Json.JsonString: so are members with such values, behind their names.
- JsonRoundTrip.PrintThenParse: real numbers, dates, object ids, binary data, regular expressions and references written
  with `Dbref` are alternatives of the grammar that the model marks as such and makes no claim about; so are their printed
  forms, and that of a reference.
- JsonAccepted.AcceptedIff: texts with real numbers, dates, object ids, binary data, regular expressions, and references
  written with `Dbref`, are in the grammar and spell nothing here.
- Json.FromJson: requires that twice the text and the buffer limit together fit an int. The variant that reports the
  parsed length instead of requiring the whole text is not modelled.
- Query operators, field projection, hex dumps and string forms other than JSON.
