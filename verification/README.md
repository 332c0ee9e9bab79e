# Verified model of JPype's native core

JPype connects CPython with the Java virtual machine. This project models the parts of JPype that are
algorithms in their own right, in Dafny 4.11, and proves what they promise. `dafny verify dfyconfig.toml`
checks everything.

| part | files | source |
|---|---|---|
| UTF-8 and modified UTF-8 transcoder | `CodeBits`, `Encoding`, `Transcoding`, `JavaStrings`, `Transcriber` | `native/common/jp_encoding.cpp` |
| overload matching, argument packing | `Methods`, `Packing` | `native/common/jp_method.cpp` |
| overload resolution and its cache | `Dispatch`, `Caching` | `native/common/jp_methoddispatch.cpp` |
| array slices as strided views | `Slices`, `JavaArrays` | `native/common/jp_array.cpp`, `native/common/jp_class.cpp`, `native/python/pyjp_array.cpp` |
| multidimensional buffers | `BufferLayout`, `NestedArrays` | `native/common/jp_array.cpp`, `native/python/jp_pythontypes.cpp`, `JPypeContext.java` |
| garbage collection coordinator | `GcPolicy`, `GcProtocol` | `native/common/jp_gc.cpp` |
| class customizers | `Customizer`, `CustomizerOrder` | `jpype/_jcustomizer.py` |
| JVM options, thread attachment | `JvmOptions`, `ThreadAttachment` | `native/common/jp_context.cpp` |
| DB-API cursor | `Cursors` | `jpype/dbapi2.py` |

How the source's notions appear:

* The transcoder works on 32-bit words with the source's own shifts, masks and wrap-around; a byte is a word
  below 0x100, as `in.get()` delivers it. The streams are objects with a position and an eof flag. Well-formed
  UTF-8 is the grammar of section 4 of RFC 3629, well-formed modified UTF-8 that of section 4.4.7 of the Java
  Virtual Machine Specification, both restricted to Unicode scalar values.
* A Java parameter type is the quality with which it accepts each argument. Overloads, match records, dispatches,
  arrays, cursors and the customizer engine are classes whose methods update their fields as the source does, each
  proved against a function of the old state; the theorems are about those functions.
* `GcProtocol` and `ThreadAttachment` are state machines over atomic steps of any number of threads. Runs of the
  customizer engine are sequences of the same steps that the engine's methods take.

Where the source does not do what its comments or callers expect, the model keeps the code, and there is a
condition that is both necessary and sufficient:

* Transcribing there and back is the identity exactly on well-formed input (`RoundTripIffWellFormed`). A lone
  surrogate from the UTF-8 side is moved up by 0x100000 by the wrap-around of `c - 0x10000`; code points above
  0x10FFFF are dropped (`SurrogateComesBackMoved`).
* A Java string reaches Python intact exactly if its surrogates are paired (`ToPythonIsStringIff`). Otherwise one of
  two things happens: a surrogate in front of a unit that takes three bytes is joined with it, whatever it is, and
  the text is silently another one (`NothingSwallowedIff`, `SwallowedCharacter`); a surrogate in front of anything
  else, or at the end, makes the result ill-formed (`ToPythonIsWellFormedIff`, `LoneSurrogate`).
* A method inherited by a class is in the dispatches of both classes, but has one stored hash. The cache is then
  invisible exactly if shared overloads are chosen alike (`CacheInvisibleIffSharedAlike`); `InheritedOverload` is a
  hierarchy of two classes where it is not.
* The list of ambiguous overloads is emptied only when a better overload of the same kind, static or instance, takes
  the lead. So an ambiguity is also reported when an exact match follows a tie (`ExactAfterTie`), and when the first
  and best overload of the kind asked for follows a tie of the other kind (`OtherKindAfterTie`); these are all the
  cases where one overload beats all others and the report is made nevertheless (`SpuriousIff`).
* Packing is right for every slot exactly unless a static variadic method is called on an instance
  (`PackedIffAligned`, `MisalignedMatch`).
* An empty slice accepts any value in an assignment (`JPArray.AssignSlice`), which Python lists do not.
* Sticky methods reach a class exactly if it is created after the registration, hooks reach every class
  (`HooksReachEveryClassOnce`).
* An option with an embedded zero byte is cut there (`PackedReadsBack`).
* A thread that asks for a detach with Java methods on its stack, and is neither attached explicitly nor detached
  afterwards, stays attached after its exit, because the refused detach still unregisters the destructor
  (`ExitedStaysAttachedIff`, `DetachInsideJavaLeaks`). That the virtual machine refuses is "Detaching from the VM" in
  the Invocation API chapter of the JNI specification. The thread that starts the JVM is attached by the JVM and not
  registered, so it too stays attached (`StarterStaysAttached`).
* A fetch succeeds exactly if all the rows it wants convert. Otherwise it has consumed the first row that does not,
  and drops those collected before it (`Cursor.Fetch`, `GoodRowsLost`); rows are lost exactly once such a row has been
  read (`RowsReturned`).

## Model

| member | source | states |
|---|---|---|
| `Encoding.FetchAtHead` | native/common/jp_encoding.cpp:138-383 | for every scalar value, in both encodings, fetching its encoding followed by any bytes gives the value back and consumes exactly its bytes, without touching eof |
| `Encoding.FetchWellFormed` | native/common/jp_encoding.cpp:173-383 | a character that is well formed by the standard's grammar is fetched whole, as a scalar value whose encoding is those bytes |
| `Transcoding.WellFormedIffEncoded` | native/common/jp_encoding.cpp:109-298 | the byte grammars of the standards describe exactly the strings that the encoders write for scalar values |
| `Transcoding.Utf8Meaning` | native/common/jp_encoding.cpp:109-163 | the payload bits of the UTF-8 bytes of a code point, read most significant first, are the code point |
| `Transcoding.JavaMeaning` | native/common/jp_encoding.cpp:219-298 | the Java form of a string is its UTF-16 code units, each encoded on its own, NUL in two bytes |
| `Transcoding.FetchAllPrefix` | native/common/jp_encoding.cpp:91-104 | a string starting with encoded scalar values decodes to them followed by whatever the remaining bytes decode to |
| `Transcoding.FetchUtf8Reads` | native/common/jp_encoding.cpp:173-216 | on any bytes a UTF-8 fetch yields the payload of the bytes the first one announces, and fails exactly if the continuation bytes are not all there |
| `Transcoding.FetchJavaReads` | native/common/jp_encoding.cpp:318-383 | the same for modified UTF-8, where a surrogate in front of a first byte of three is joined with the payload of those three bytes, checked or not |
| `Transcoding.RoundTripIffWellFormed` | native/common/jp_encoding.cpp:63-105 | for all byte strings and both directions, transcribing there and back returns the input if and only if the input is well formed |
| `Transcoding.ToJavaIsWellFormed` | native/common/jp_encoding.cpp:264-298 | from any bytes whatever, the result for Java is well-formed modified UTF-8 |
| `Transcoding.SurrogateComesBackMoved` | native/common/jp_encoding.cpp:286-297 | a surrogate among Python's bytes comes back from Java as a character above 0xFFFF |
| `JavaStrings.FetchesRead` | native/common/jp_encoding.cpp:318-383 | from any sequence of Java chars the loop fetches each one, but a surrogate together with the next char if that takes three bytes, of whatever kind |
| `JavaStrings.ToPythonIsWellFormedIff` | native/common/jp_javaframe.cpp:1108-1116 | for every sequence of Java chars, Python gets well-formed UTF-8 if and only if, pairing from the left, every surrogate is followed by a char that takes three bytes |
| `JavaStrings.ToPythonIsStringIff` | native/common/jp_javaframe.cpp:1108-1116 | Python gets the UTF-8 of the string if and only if every surrogate is a high one followed by a low one |
| `JavaStrings.NothingSwallowedIff` | native/common/jp_encoding.cpp:355-382 | Python gets all code points of the string, as Java counts them, if and only if no surrogate stands in front of a three-byte char that is not its partner |
| `JavaStrings.PairedIff` | native/common/jp_encoding.cpp:355-382 | the two failures, ill-formed output and a swallowed character, are all the ways to miss a string |
| `JavaStrings.JavaRoundTripIffPaired` | native/common/jp_javaframe.cpp:1108-1126 | a string handed to Python and back is the same if and only if its surrogates are paired |
| `JavaStrings.LoneSurrogate` | native/common/jp_encoding.cpp:355-360 | the smallest string that comes out ill-formed |
| `JavaStrings.SwallowedCharacter` | native/common/jp_encoding.cpp:355-382 | a surrogate and the character behind it come out as one other character, well formed |
| `Transcoding.EncodeJavaSettles` | native/common/jp_encoding.cpp:286-297 | code points that are not scalar values are written as the scalar values their wrap-around leads to, or not at all |
| `Transcoding.TranscodeConcat` | native/common/jp_encoding.cpp:63-105 | transcribing distributes over concatenation when the first part is well formed, whatever the second is |
| `Transcoding.ToJavaHasNoZero` | native/common/jp_javaframe.cpp:1118-1126 | no input yields a zero byte on the Java side, so the C string loses nothing |
| `Transcoding.BypassIsLoop` | native/common/jp_encoding.cpp:67-80 | on every string the ASCII shortcut accepts, the loop would return the input unchanged, for all pairs of encodings |
| `Transcriber.InStream.Get` | native/common/jp_encoding.cpp:49-56 | reading yields the next byte, or at the end sets eof and yields -1 |
| `Transcriber.FetchFromUtf8` | native/common/jp_encoding.cpp:173-216 | the method's code point, stream position and eof flag are those of the specification on the remaining bytes |
| `Transcriber.FetchFromJava` | native/common/jp_encoding.cpp:318-383 | the same for modified UTF-8, including peeking behind a surrogate |
| `Transcriber.EncodeToUtf8` | native/common/jp_encoding.cpp:138-163 | appends exactly the specified bytes to the output |
| `Transcriber.EncodeToJava` | native/common/jp_encoding.cpp:264-298 | appends exactly the specified bytes to the output |
| `Transcriber.AcceptsBypass` | native/common/jp_encoding.cpp:67-76 | the shortcut is taken exactly for strings without zero bytes and without high bits |
| `Transcriber.Transcribe` | native/common/jp_encoding.cpp:63-105 | terminates on every input, and returns, shortcut or not, the encodings of the code points fetched before the first failing fetch |
| `Methods.MatchVars` | native/common/jp_method.cpp:54-78 | the worst quality of all trailing arguments against the component type, or none |
| `Methods.Matches` | native/common/jp_method.cpp:80-176 | the reported quality, cut off below implicit, is the fit of overload and call, and on success the record holds offset, skip, variadic form and the conversion of every tested argument |
| `Methods.Method.CheckMoreSpecificThan` | native/common/jp_method.cpp:417-425 | true exactly for the overloads in the list of less specific ones |
| `Packing.FitIsMinimum` | native/common/jp_method.cpp:54-176 | a successful match's quality is the minimum over all arguments of the quality against the type each one is used as |
| `Packing.MatchesIff` | native/common/jp_method.cpp:80-176 | an aligned call matches if and only if it has the right number of arguments and each is accepted implicitly or better, behind the fixed ones of a variadic method all as components or a single one as the array |
| `Packing.SlotsInOrder` | native/common/jp_method.cpp:178-202 | the slots of an aligned call are the arguments behind the receiver, in order, each converted to the type at its place; the last slot of a variadic method is the argument taken as the array or an array of all trailing ones |
| `Packing.PackedIffAligned` | native/common/jp_method.cpp:127-201 | for every successful match, each JNI slot gets the argument at its own parameter's position, converted to that parameter's type, or the array of all trailing arguments, if and only if the call is not a static variadic one on an instance |
| `Packing.MisalignedMatch` | native/common/jp_method.cpp:132-140 | a static variadic method that matches exactly when called on an instance, with every argument packed into the first slot |
| `Packing.PackArgs` | native/common/jp_method.cpp:178-202 | stays in bounds; for an aligned call writes every slot JNI reads with its right value, each once, and no other; for a misaligned one what PackedIffAligned is about |
| `Dispatch.ChosenIsBest` | native/common/jp_methoddispatch.cpp:90-153 | a resolved overload matches, and every other matching one visited was hidden by a then-best more specific overload, fits strictly worse when kind (static or instance, as the call asks) is compared before quality, except that an exact match beats everything below exact |
| `Dispatch.ChosenIsBestAmongEqualKind` | native/common/jp_methoddispatch.cpp:90-153 | if all overloads share static-ness only the first two reasons occur |
| `Dispatch.KindAskedForWins` | native/common/jp_methoddispatch.cpp:115-131 | short of an exact match, a static overload is chosen for an instance call, or an instance one for a call without, if and only if all matching ones of the other kind are hidden; and none of its own kind that is not hidden fits better |
| `Dispatch.EachKindWhenAskedFor` | native/common/jp_methoddispatch.cpp:115-131 | one list of overloads and one argument list for which the kind of the call decides, in either order |
| `Dispatch.MoreSpecificHides` | native/common/jp_methoddispatch.cpp:112-113 | two overloads that fit alike: the more specific one in front wins, behind it is ambiguous |
| `Dispatch.NoMatchIffNoneFits` | native/common/jp_methoddispatch.cpp:184-213 | "no matching overloads" is reported exactly if no overload fits |
| `Dispatch.AmbiguousIffUnsettledTie` | native/common/jp_methoddispatch.cpp:90-159 | for overloads of any kinds, an ambiguity is reported if and only if before the first exact match some overload drew level with the best of its kind and none behind it took the lead within its own kind; otherwise an exact match is the result |
| `Dispatch.SpuriousIff` | native/common/jp_methoddispatch.cpp:96-151 | an ambiguity is reported although one overload beats all others if and only if an unsettled tie precedes an exact match, or the first and best overload of the kind asked for |
| `Dispatch.HiddenIffLeaderMoreSpecific` | native/common/jp_methoddispatch.cpp:112-113 | an overload is passed over as hidden if and only if the latest one that beat all before it is declared more specific |
| `Dispatch.AmbiguousIffTieAmongEqualKind` | native/common/jp_methoddispatch.cpp:133-151 | for overloads of one kind, none exact, an ambiguity is reported if and only if two of them share the best fit |
| `Dispatch.OtherKindAfterTie` | native/common/jp_methoddispatch.cpp:115-124 | an instance call with two tied static overloads in front of a better instance one is reported as ambiguous |
| `Dispatch.ExactAfterTie` | native/common/jp_methoddispatch.cpp:155-159 | three overloads where an exact match is reported as ambiguous |
| `Dispatch.MethodDispatch.ScanOverloads` | native/common/jp_methoddispatch.cpp:84-153 | the loop with its early exits computes the specified scan, and leaves the match record of the best overload |
| `Dispatch.MethodDispatch.FindOverload` | native/common/jp_methoddispatch.cpp:42-225 | the outcome is the cached overload if its hash agrees, it is not variadic and it matches, and otherwise that of a scan with an empty cache; a success stores overload and hash and nothing else |
| `Caching.RunAgrees` | native/common/jp_methoddispatch.cpp:50-90 | every answer in every run of many dispatches sharing overloads is that of the uncached scan, if the hash decides how calls match and shared overloads are chosen alike |
| `Caching.SharedOverloadMisleads` | native/common/jp_methoddispatch.cpp:215-220 | if two dispatches choose a shared overload for calls that one of them would resolve differently, three calls make the cache answer wrongly |
| `Caching.CacheInvisibleIffSharedAlike` | native/common/jp_methoddispatch.cpp:50-90 | when the hash decides how calls match, the cache is invisible in all runs if and only if shared overloads are chosen alike |
| `Caching.UnsharedIsInvisible` | native/common/jp_methoddispatch.cpp:215-220 | in particular if every stored hash is written by one dispatch only |
| `Caching.InheritedOverload` | native/common/jp_methoddispatch.cpp:217-218 | two dispatches sharing an inherited overload that are not chosen alike |
| `Slices.PositionsAre` | native/python/pyjp_array.cpp:184 | the positions Python visits one step at a time are as many as PySlice_AdjustIndices counts, and form the arithmetic progression |
| `Slices.ForwardSlice` | native/python/pyjp_array.cpp:184 | with a positive step the slice selects, ascending, every step-th position from the start bound on before the stop bound; bounds count from the end if negative, are moved into the list if outside, and default to its ends |
| `Slices.BackwardSlice` | native/python/pyjp_array.cpp:184 | with a negative step, descending, with the bounds and defaults of Python for that case |
| `Slices.NegativeBound` | native/python/pyjp_array.cpp:184 | a bound from the end selects what the same position from the start does |
| `Slices.PartOfList` | native/python/pyjp_array.cpp:184 | list[a:b] is the part of the list from a to b |
| `Slices.EndsOfList` | native/python/pyjp_array.cpp:184 | list[-k:] is the last k elements and list[:-k] the others |
| `Slices.ListBackwards` | native/python/pyjp_array.cpp:184 | list[::-1] is the list backwards |
| `Slices.SubLength` | native/common/jp_array.cpp:55-60 | the length the constructor computes with division towards zero is Python's, for both signs of step |
| `Slices.SliceOfView` | native/python/pyjp_array.cpp:176-207 | slicing a view gives Python's length, indices inside the Java array, and the elements of the list slice in order |
| `Slices.SliceChains` | native/common/jp_array.cpp:48-63 | the same for slices of slices to any depth with any signs of step |
| `Slices.ScatterWrites` | native/common/jp_class.cpp:269-276 | a strided write stores each value at its place and changes no other position |
| `Slices.ScatterThroughView` | native/common/jp_array.cpp:97-98 | writing through a view equals writing into the list of its elements |
| `Slices.AssignMeans` | native/common/jp_array.cpp:73-100 | assigning to a slice of a list is the strided write, and reading the slice back gives the values |
| `JavaArrays.SetArrayRange` | native/common/jp_class.cpp:249-278 | converts and stores everything, or fails before the first write and leaves the array untouched |
| `JavaArrays.JPArray.Slice` | native/common/jp_array.cpp:48-63 | the constructor computes start, step and length of the sub-view on the same Java array |
| `JavaArrays.JPArray.GetItem` | native/common/jp_array.cpp:116-130 | element of the list the view stands for, negative indices from the end, IndexError outside |
| `JavaArrays.JPArray.SetItem` | native/common/jp_array.cpp:102-114 | updates exactly that element of the list and of the Java array, or fails and changes nothing |
| `JavaArrays.JPArray.GetSlice` | native/python/pyjp_array.cpp:161-211 | a valid view of the same Java array, standing for the list slice |
| `JavaArrays.JPArray.SetRange` | native/common/jp_array.cpp:73-100 | the outcome by its three checks; on success the strided write, in the array and in the list |
| `JavaArrays.JPArray.AssignSlice` | native/python/pyjp_array.cpp:213-262 | Python's slice assignment on the list, changing only the selected positions of the Java array, the slice reading back as the converted values; an empty selection accepts anything and does nothing; a failure changes nothing |
| `BufferLayout.HornerIsDot` | native/python/jp_pythontypes.cpp:451-470 | for any number of dimensions the Horner index times the item size equals the dot product with the row-major strides |
| `BufferLayout.OffsetsAreBijective` | native/common/jp_array.cpp:188-204 | in-range index vectors correspond one to one to the item-aligned offsets of the allocation |
| `BufferLayout.ArrayView.constructor` | native/common/jp_array.cpp:161-230 | allocates exactly the product of the extents, stores row-major strides and packs the rows one after another |
| `BufferLayout.ArrayView.SizeOf` | native/common/jp_array.cpp:187-192 | the size loop multiplies item size and all extents |
| `BufferLayout.ArrayView.StridesOf` | native/common/jp_array.cpp:195-201 | the stride loop, from the last dimension forward, computes the row-major strides |
| `BufferLayout.ArrayView.CopyRows` | native/common/jp_array.cpp:207-216 | the packing loop fills the memory with the rows in order |
| `BufferLayout.ArrayView.BufferOffset` | native/python/jp_pythontypes.cpp:442-473 | with and without strides the address computed is the same, the Horner index in items |
| `NestedArrays.ItemIsElement` | native/common/jp_array.cpp:207-216 | in the rows of a rectangular Java array, one after another, the item at the Horner index is the element a[i0]...[in] of the nested array |
| `NestedArrays.BufferReadsElement` | native/python/jp_pythontypes.cpp:451-470 | what is read through the buffer at an index vector is the element of the Java array at that index vector |
| `NestedArrays.LeavesAre` | native/common/jp_array.cpp:205-216 | the innermost arrays are as many as the leading extents say and as long as the last |
| `NestedArrays.Collect` | native/jpype_module/src/main/java/org/jpype/JPypeContext.java:330-345 | appends all innermost arrays in order, or fails exactly if the array is not rectangular with the given extents |
| `NestedArrays.CollectRectangular` | native/jpype_module/src/main/java/org/jpype/JPypeContext.java:361-397 | yields the extents and the rows if and only if the array is rectangular, has no extent of zero and at most four dimensions |
| `GcPolicy.SampleSettles` | native/common/jp_gc.cpp:209-276 | after any sample low water is at most high water, and after a System.gc trigger the current size is at most the limit |
| `GcPolicy.WatermarksStayNear` | native/common/jp_gc.cpp:183-185 | over every sequence of starts and samples high water stays at most the largest size seen, and the limit at most that plus the larger of the delta limit and an eighth of it |
| `GcPolicy.TriggerIsForecast` | native/common/jp_gc.cpp:229-273 | a sample triggers System.gc exactly when the size has not shrunk since the last one and the growth forecast exceeds the limit in force, and what the limit and both watermarks are afterwards |
| `GcPolicy.MarksFollow` | native/common/jp_gc.cpp:221-240 | low water is the lowest and high water the highest size, but at a new low high water comes within four delta limits and the limit goes half way to the highest size |
| `GcPolicy.StartAndEndSample` | native/common/jp_gc.cpp:198-276 | while running, a start and an end on threads that are not forcing make exactly one sample, with one more System.gc exactly if the policy says so, and a second end makes none |
| `GcPolicy.IdleCallbacks` | native/common/jp_gc.cpp:198-215 | on a forcing thread, before init and after shutdown the callbacks do nothing |
| `GcPolicy.FirstSample` | native/common/jp_gc.cpp:183-276 | the first collection behind init triggers System.gc exactly if three times its size exceeds the size at the start by more than the delta limit |
| `GcPolicy.Collector.Init` | native/common/jp_gc.cpp:152-186 | starts running with high water and limit from the current size, the rest as it was; the step that GcProtocol takes at start-up |
| `GcPolicy.Collector.OnStart` | native/common/jp_gc.cpp:198-207 | marks a Python collection unless not running or forcing, as in the step of GcProtocol |
| `GcPolicy.Collector.OnEnd` | native/common/jp_gc.cpp:209-276 | unless not running, forcing or unmarked, applies the policy once and triggers System.gc as it says, as in the step of GcProtocol |
| `GcProtocol.ForcedCollectionsAreThrottled` | native/common/jp_gc.cpp:116-150 | in every run of any number of threads the claim flag is set exactly while one thread holds it, at most one forced collection is in progress, and from the first start to start n+1 at least five times the time spent in the first n and n times 50 ms pass |
| `GcProtocol.ForcedCollectionIsNotSampled` | native/common/jp_gc.cpp:198-215 | callbacks during a forced collection change nothing, so it never triggers System.gc |
| `GcProtocol.SampledIffMarked` | native/common/jp_gc.cpp:198-215 | in every run exactly those ends are sampled that come, while running and outside forced collections, behind such a start without another such end between |
| `GcProtocol.StartAndEndAreSampled` | native/common/jp_gc.cpp:198-215 | in every run, while running, a start and an end outside forced collections add one sample of the size at the end |
| `GcProtocol.UncontendedTriggerCollects` | native/common/jp_gc.cpp:116-150 | a trigger that finds the claim free and the cool-down over collects once, frees the claim and stores the cool-down of exactly that collection |
| `GcProtocol.OtherTriggersReturn` | native/common/jp_gc.cpp:116-150 | a trigger that finds the claim taken, or that comes before init or after shutdown, changes nothing; one during the cool-down drops its claim and does not collect |
| `GcProtocol.NothingAfterStop` | native/common/jp_gc.cpp:116-215 | after shutdown and until the next start no thread enters a trigger, nothing is sampled and System.gc is not triggered, whatever else happens |
| `GcProtocol.WatermarksInEveryRun` | native/common/jp_gc.cpp:183-276 | the watermark bounds hold in every run of the protocol |
| `Customizer.Engine.ApplyAll` | jpype/_jcustomizer.py:185-194 | the work list terminates and visits exactly the classes at or under the given one, each once, breadth first: classes found from an earlier visited base come before those found only from a later one |
| `Customizer.Engine.Collect` | jpype/_jcustomizer.py:149-182 | all hooks of a list of prototypes, then all their sticky methods |
| `Customizer.Engine.ApplyInitializer` | jpype/_jcustomizer.py:292-303 | the hooks stored along the resolution order are called on the class, most basic class first |
| `Customizer.Engine.CreateClass` | jpype/_jcustomizer.py:267-303 | creating a class keeps every registration in its proper reach |
| `Customizer.Engine.Register` | jpype/_jcustomizer.py:197-265 | registering, before or after the class exists, keeps every registration in its proper reach |
| `Customizer.CreatedIsValid` | jpype/_jcustomizer.py:267-303 | a creation leaves classes that existed alone and gives the new class everything registered at or above it, once |
| `Customizer.RegisteredIsValid` | jpype/_jcustomizer.py:197-228 | a registration reaches all classes at or under the target once, and its actions are stored once for later ones |
| `Customizer.HooksReachEveryClassOnce` | jpype/_jcustomizer.py:185-303 | over any interleaving every hook is applied exactly once to each class at or under its target and never to another; sticky methods exactly to those created later |
| `CustomizerOrder.CallsInOrder` | jpype/_jcustomizer.py:149-303 | over any interleaving, the order of all calls on one class: at its creation those registered for more basic classes first, for each class what was registered before it hooks first, then registration by registration; afterwards registration by registration |
| `CustomizerOrder.HooksInRegistrationOrder` | jpype/_jcustomizer.py:180-228 | hooks registered for the same class run in the order of registration, on every class |
| `CustomizerOrder.HooksBeforeSticky` | jpype/_jcustomizer.py:211-289 | a hook runs before the sticky methods registered for the same class with it or later, and before all of them if both were registered before that class was created |
| `CustomizerOrder.BasicBeforeDerived` | jpype/_jcustomizer.py:297-303 | at the creation of a class, hooks registered for a class further back in its resolution order run first |
| `CustomizerOrder.RunKeepsSubclasses` | jpype/_jcustomizer.py:185-194 | the subclass lists that the work list reads hold each direct subclass once, in the order of creation |
| `JvmOptions.FinalArgs` | native/common/jp_context.cpp:215-233 | passes on everything but native-access options in order, and mentions native access exactly for newer JDKs |
| `JvmOptions.FinalArgsMean` | native/common/jp_context.cpp:215-233 | by the prefix of the arguments: what an older JDK gets as a multiset, and when a newer one gets the default |
| `JvmOptions.PackOptions` | native/common/jp_context.cpp:235-267 | each string is at its computed place, zero terminated, and the cursor ends at the allocated size |
| `JvmOptions.PackedRegions` | native/common/jp_context.cpp:237-244 | header, option table and string regions are disjoint, aligned and inside the block |
| `JvmOptions.PackedReadsBack` | native/common/jp_context.cpp:261-267 | an option reads back as its argument up to the first zero byte, so as the argument if and only if it has none |
| `ThreadAttachment.ExitedStaysAttachedIff` | native/common/jp_context.cpp:677-815 | in every interleaving, while the JVM runs, an exited thread that JPype attached is still attached if and only if one of its detaches was refused, from inside Java, and it was neither attached explicitly nor detached after that |
| `ThreadAttachment.ExitedThreadsAreDetached` | native/common/jp_context.cpp:677-815 | in particular no exited thread is left attached by JPype that never had a detach refused |
| `ThreadAttachment.CallsAchieve` | native/common/jp_context.cpp:744-815 | what attach, getEnv, detach and exit leave a living thread of a running JVM as: attached, registered, JPype's |
| `ThreadAttachment.CallsLeaveAlone` | native/common/jp_context.cpp:677-742 | other threads, exited threads and, when no JVM runs, attachments stay as they are |
| `ThreadAttachment.OthersAchieve` | native/common/jp_context.cpp:787-815 | attaching and detaching by other code, and entering and leaving Java |
| `ThreadAttachment.DetachInsideJavaLeaks` | native/common/jp_context.cpp:781-785 | a run of six steps that leaks |
| `ThreadAttachment.StarterStaysAttached` | native/common/jp_context.cpp:787-814 | the thread that started the JVM stays attached by it at its exit, unless it attached explicitly |
| `Cursors.Cursor.Finish` | jpype/dbapi2.py:903-912 | leaves neither result set nor statement |
| `Cursors.Cursor.Close` | jpype/dbapi2.py:788-792 | a closed cursor owns no open statement |
| `Cursors.Cursor.Execute` | jpype/dbapi2.py:1139-1166 | whatever fails, at most the newly prepared statement is open, all earlier ones are closed, and a query starts at its first row |
| `Cursors.Cursor.ReadRows` | jpype/dbapi2.py:1294-1319 | the converted rows from the position on, as many as asked for or left, if and only if they all convert; else stops behind the first that does not |
| `Cursors.Cursor.Fetch` | jpype/dbapi2.py:1258-1319 | succeeds if and only if all wanted rows convert; what was delivered stays exactly the conversion of the rows read if and only if it succeeds |
| `Cursors.Cursor.FetchOne` | jpype/dbapi2.py:1250-1263 | refused with nothing changed, or one more row in order if it converts, None exactly at the end |
| `Cursors.Cursor.FetchRows` | jpype/dbapi2.py:1265-1319 | refused with nothing changed, or more rows in order if they all convert, all of them for fetchall, fewer than asked only at the end |
| `Cursors.Generator.Next` | jpype/dbapi2.py:1320-1327 | a fresh generator checks the cursor, a suspended one only takes the next row of the result set the cursor has by then, and a finished or failed one yields nothing more |
| `Cursors.RowsReturned` | jpype/dbapi2.py:1250-1327 | over any interleaving of fetchone, fetchmany, fetchall and any number of generators the rows returned are in order without repetition, and are exactly the rows read if and only if all rows read convert |
| `Cursors.TotalConversionsLoseNothing` | jpype/dbapi2.py:1250-1327 | with conversions that accept every row no fetch fails, the rows returned are always a prefix of the result set, and a fetchall completes it |
| `Cursors.RequestsAreMet` | jpype/dbapi2.py:1250-1327 | in every run with conversions that accept every row, each request gets the rows it asks for as far as there are any, unless it is refused; and a generator goes on exactly as long as it gets a row, after its first row even where a fetch would be refused |
| `Cursors.LoopDelivers` | jpype/dbapi2.py:1320-1327 | a loop over a cursor delivers one row at each step, in order, and ends when there are no more |
| `Cursors.LoopReturnsAll` | jpype/dbapi2.py:1320-1327 | a loop that runs to the end returns the whole result set |
| `Cursors.SingleRowsLoseOnlyBad` | jpype/dbapi2.py:1250-1263 | fetchone and iteration return every row read that converts |
| `Cursors.GoodRowsLost` | jpype/dbapi2.py:1294-1306 | a run in which a fetchmany loses two rows that convert |
| `Cursors.RowsAre` | jpype/dbapi2.py:849-887 | with conversions that accept every row, one converted row per row read, in order |

## Left out

- Matches: which quality below implicit a failed match reports is not modelled, because callers only compare with implicit; a static method with a single array parameter called on an instance with one more argument reads in front of its arguments in the source, and here that direct attempt simply fails.
- FindOverload: raising an error and returning false are one outcome here, since only the `raise` argument decides between them; the text of the error is not modelled.
- PackArgs: of the static variadic methods called on an instance, which PackedIffAligned shows to be packed wrongly, those are excluded that have a single parameter, for which the source writes in front of its vector, or take the array directly, for which it converts an argument that no type was tried on.
- CacheInvisibleIffSharedAlike: assumes that equal hashes match alike, so collisions of the hash and matches that depend on the values inside an argument are not covered; the hash computation is not modelled.
- SetArrayRange: the object-array version only; primitive arrays have their own versions with buffer input.
- AssignSlice: the refusal to assign an array to itself and the deletion of items are checked before and not modelled.
- ForwardSlice: lists are at most as long as `PY_SSIZE_T_MAX`, as all Python lists are.
- Positions, strides and lengths are mathematical integers; the narrowing to `jsize` and the 32-bit offset in the packing loop are not modelled.
- BufferReadsElement: holds for any number of dimensions, of which CollectRectangular admits at most four.
- Collect: a null inside the array raises a NullPointerException in the source and counts as not rectangular here; element types other than primitives are not modelled.
- Buffer views of sliced multidimensional arrays, suboffsets, reference counts and the release of views.
- WatermarksStayNear: sizes are unbounded; how the working size is measured per platform is not modelled.
- ForcedCollectionsAreThrottled: whether the collection inside the claim really runs (it is skipped when shutdown intervenes, and exceptions are swallowed) makes no difference to the steps.
- Register: registrations made from inside a hook, base-class prototypes, copying of members with renames, and prototypes whose `__jclass_init__` is not callable.
- ExitedStaysAttachedIff: the JVM is started at most once, as JPype demands, and attach calls succeed while it runs.
- Execute: `executemany`, `callproc`, `nextset`, parameters, batches and the row count; closing a result set does not raise.
- RowsReturned: one result set of an open cursor; calls of the JDBC driver on the result set do not raise.
- Conversion tables between Python and Java values, JNI calls, exceptions across the bridge, JVM discovery, class paths and import hooks.
