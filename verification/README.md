# Visitor cookies: a verified model

This project models the visitor-cookie storage core of *elevator* and the parts of its test
harness and test framework that count, pace, merge and schedule, and proves what they
guarantee over all inputs and all runs.

**The cookie.** A `VCookie` keeps scalar fields, at most five purchase ids in order of last
use, and relation variables. The variables live in two vectors: `relVar` in order of
insertion and `relVarSort`, a permutation that sorts it by relation id. The class in
`VCookies.dfy` works on these vectors; `Value()` gives the cookie as a value (`Cookies.dfy`),
with the variables as one ascending list (`VarIndex.dfy`). Every method states what it does
to that value. What the value-level operations mean is proved separately, against
independent references: a map from ids to elements, a sliding window, "the last five
distinct ids in order of last use". `Lookups.dfy` says what looking up single ids tells, as
opposed to enumerating them. `CookieRuns.dfy` says what runs of operations leave.

**The codec.** `Wire.dfy` is the byte grammar: header with the offset of the variables,
ascending tagged fields, zero tag, variable groups, sentinel. `WireLanguage.dfy` says which
buffers are accepted and how much of one that breaks off has been read; `ExactBytes.dfy`
writes out the bytes of one cookie. `Codec.dfy` says which message
a cookie becomes and which operations a message stands for. `Serializer.dfy` and
`Deserializer.dfy` are the two programs, shown to compute just that. `CodecTheorems.dfy`
holds the results.

**The store.** `InMemoryStore.dfy` is the map from visitor id to (last hit time, bytes) with
the life of a cookie on top of it: constructor, `Store`, destructor.

**Around it.** `RateMeter.dfy`, `RateControl.dfy` and `ThreadTotals.dfy` (test harness),
`TestSuite.dfy` and `GrowableList.dfy` (test framework), `ClientMerge.dfy` (report merge).

## What was found

Where the code does not do what its name, comment or tests promise, the model follows the
code. For each item a lemma gives an input, or the exact condition under which the promise
holds, or both.

- A lookup does not check that it found the id it was asked for; it answers for the next
  higher indexed one. The answer is the right one exactly if the id has an entry, or no higher
  one has, or the next higher one that has is cleared (`LookupFindsItsOwnIff`). `ClearVar` of
  an id that was never set can empty another variable (`ClearReachesOnlyItsOwn`).
- `operator ==` enumerates the left cookie on both sides. It is not symmetric, and even two
  cookies that are equal both ways may enumerate differently. Together with a comparison of
  the enumerated ids it is exact for enumeration, as long as every variable has fewer than 2^32
  elements (`EqualityExactly`); if the texts hold no NUL and the headers fit 32 bits as well, it
  is exact for the bytes (`EqualityAgainstBytes`). It never notices what lookups tell apart
  (`ClearedEntriesAreNotCompared`, `LookAlikeIff`).
- Enumerating a cookie shows the same after the codec exactly when its texts hold no NUL, no
  variable starts with an empty element, and header size and element counts fit 32 bits
  (`EnumerationReturnsIff`). Cookies built with `SetVar` meet all but the sizes and the NULs
  by themselves (`RunsAreCodable`).
- Lookups show the same as well exactly when, in addition, no cleared variable lies below a
  set one and none under id 65535 has elements (`LooksReturnIff`). The codec drops cleared
  entries, so that a cleared id comes back with the elements of its neighbour
  (`ClearedIdComesBack`); the cookie that the tests set up has such an entry.
- All getters show the same exactly when, in addition to being codable, the cookie has no
  cleared variable at all, save one under id 65535, and nothing set there (`RoundTripIff`). The
  enumeration of modified variables tells a cleared variable from one that was never set, and
  that is lost (`ClearedIdIsForgotten`).
- Id 65535 is the sentinel: a variable under it can be set and looked up, but is neither
  enumerated, nor compared, nor serialized (`SentinelIsLost`).
- A refused buffer leaves its traces: what was read before the refusal has been set. Of a cookie
  that is cut off these are exactly the fields and elements that lie wholly within what is left
  (`CutCookie`).
- Decoding into a cookie that has a variable already does not replace a linear one: as many of
  the old elements stay as there are new ones, less one (`GroupOverOld`).
- Two time getters answer with the last hit time, so the visitor-local and the purchase time
  are lost on the way through the store (`ShadowedTimesSurviveIff`). For the same reason the
  blob still depends on the last hit time when it is asked to leave it out
  (`LastHitIsNotLeftOut`).
- `ClearVar` and the reuse of a purchase id do not mark the cookie modified
  (`UnmarkedChangeIff`). The destructor drops what a session changed by such operations alone
  (`ChangeSurvivesSessionIff`).
- A variable's own modified mark is never reset, not even by `Store`. `GetFirstModifiedVar`
  answers "none" exactly if there is nothing indexed below 65535, and the enumeration of the
  modified variables is that of the index (`ModifiedMeansIndexed`).
- `VCookieId::operator <` orders only sets of keys that compare componentwise
  (`ComparatorOrdersChainsOnly`); the store's own test uses keys that do not.
- Stopping a rate meter does not check that its clock is running: stopped twice, it adds a
  zero for every second of the calendar (`StoppedAgain`).
- The pace of `rateControl` is rounded down to whole nanoseconds, so the configured rate is
  kept exactly when it divides 10^9 (`PaceKeepsRateIff`).
- In the client merge a server with an empty window erases what was merged before it and the
  merge starts over (`MergeIsFullIff`, `RestartsAfterEmptyWindow`).
- The start offset of a server shortens its window but does not shift it. Let the live servers
  be those after the last empty window. The merge adds up the same seconds, whatever the reports
  hold, exactly when there is no live server, or every live one was started at the latest start
  or has no entries, and no entry of the others reaches that start (`MergeAlignsIff`). Two inputs
  where it does not: `LateStartIsMisplaced`, `EmptyReportIsMisplaced`.

## Reading the model

Integers that are copied byte by byte are little-endian; `time_t` has 64 bits, `unsigned` 32,
`unsigned short` 16. Where the source casts a size to 32 bits (element counts, the index of a
linear element, the offset of the variables) the truncation is written out. Strings are byte
sequences. `flags` groups the modified flags and `newCookie`, `key` the three parts of the
identity.

"Enumeration" of a cookie is what `Cookies.Enumerated` shows: the scalars as the getters
answer, the purchase ids, and the variables that first/next enumeration reaches. "Enumeration
and lookups" (`Cookies.LookAlike`) adds the lookup of every id. "All getters"
(`Cookies.SameGetters`) adds the enumeration of modified variables, too. Left aside are the
cookie's own flags and the handles of variables.

The one-line setters (abstraction/vcookie.h:118-129) and the one-line mode transitions of the
test suite (abstraction/fct.h:1204-1299) have contracts, but no rows of their own below: what
they amount to is stated by `Cookies.RunKeepsWellFormed` and `TestSuite.Suite.Run`.

## Model

| member | source | states |
|---|---|---|
| Bytes.LERoundTrip | abstraction/vcookiestore.cpp:17-24 | an integer copied into the buffer and back is unchanged, for any width it fits |
| Bytes.LEAt | abstraction/vcookiestore.cpp:17-24 | byte i of an integer in the buffer is its i-th from the least significant one |
| Bytes.LEOfFromLE | abstraction/vcookiestore.cpp:50-59 | any bytes are those of the integer that is read from them |
| Bytes.TimeIsModular | abstraction/vcookiestore.cpp:17-24 | a time is stored modulo 2^64 and read back, negative ones included |
| Bytes.ReadInt | abstraction/vcookiestore.cpp:50-59 | an integer is read exactly when all its bytes lie inside the buffer |
| Bytes.ReadText | abstraction/vcookiestore.cpp:60-73 | a text read ends at a NUL inside the buffer and holds none itself |
| Bytes.ReadPrintedText | abstraction/vcookiestore.cpp:25-32 | a text without NUL is read back as it was written |
| Bytes.ReadTextStable | abstraction/vcookiestore.cpp:60-73 | a successful read does not depend on the bytes that follow |
| VarIndex.Pos | abstraction/vcookie.h:337-358 | the position searched for: everything before is below the id, what is there is not |
| VarIndex.PosUnique | abstraction/vcookie.h:337-358 | on a sorted list that position is unique |
| VarIndex.AtMost65536 | abstraction/vcookie.h:337-342 | an index over 16-bit ids has at most 65536 entries, so the midpoint cannot wrap |
| VarIndex.PutMap | abstraction/vcookie.h:195-206 | inserting or replacing changes the map of variables at its own id only |
| VarIndex.PutElems | abstraction/vcookie.h:195-206 | every other id keeps its elements although insertion shifts positions |
| VarIndex.ListOfMap | abstraction/vcookie.h:398-399 | the sorted list is determined by the map: the order of insertion leaves no trace |
| VarProperties.EnumerationIsComplete | abstraction/vcookie.h:284-295 | first/next enumeration yields every set id below 65535 once, ascending; resumed from any id, those above it |
| VarProperties.LinearIsWindow | abstraction/vcookie.h:217-227 | one LINEAR allocation is one step of a sliding window of the given size |
| VarProperties.LinearRun | abstraction/vcookie.h:217-231 | after any run of LINEAR assignments the variable holds the last maxLinear of all it was given, no other changed |
| VarProperties.LinearWraps | abstraction/vcookie.h:225-231 | at 2^32 elements the new one overwrites the first and an empty one is added |
| VarProperties.LastAndFirst | abstraction/vcookie.h:204-216 | LAST leaves the new element alone; FIRST keeps a lone element, else leaves the new one alone |
| VarProperties.ClearReachesOnlyItsOwn | abstraction/vcookie.h:175-182 | clearing an id empties it and nothing else iff it is indexed or the entry found is empty |
| VarProperties.ClearCanHitANeighbour | abstraction/vcookie.h:175-182 | a clear of an id never set that empties another variable |
| VarProperties.StepRefines | abstraction/vcookie.h:187-251 | each variable operation keeps the list sorted and acts on the map as specified there |
| VarProperties.HistoryRefinesMap | abstraction/vcookie.h:175-251 | the same for every history of operations from an empty cookie |
| VarProperties.SameMeaningSameList | abstraction/vcookie.h:398-399 | histories with the same meaning end in the same list |
| Lookups.LookupOnMap | abstraction/vcookie.h:331-335 | on the map of variables, a lookup finds the elements of the least key not below the id |
| Lookups.LookupFindsItsOwnIff | abstraction/vcookie.h:331-335 | a lookup answers for the id asked for iff it has an entry, or no higher id has one, or the next higher one that has is cleared |
| Lookups.LookupCanFindANeighbour | abstraction/vcookie.h:268-275 | an id never set that answers with the elements of another |
| Lookups.LooksSeeEssentials | abstraction/vcookie.h:253-295 | enumeration and lookups of all ids agree iff the essential entries do: those with elements, and those cleared right below one with elements |
| Lookups.SettledIff | abstraction/vcookie.h:253-295 | dropping all that enumeration passes over changes no lookup iff nothing has elements under 65535 and no cleared variable lies below a set one |
| Lookups.ModifiedMeansIndexed | abstraction/vcookie.h:297-330 | enumerating the modified variables yields every indexed id below 65535 once, ascending, saved or not |
| Lookups.SameModifiedIff | abstraction/vcookie.h:297-330 | its answers agree for two indexes, resumed from any id, iff the same ids below 65535 are indexed |
| Lookups.GettersSeeObserved | abstraction/vcookie.h:253-330 | all queries of variables agree iff the entries do, apart from a cleared one under 65535 |
| Lookups.AllSetIff | abstraction/vcookie.h:253-330 | dropping all that enumeration passes over changes no query iff nothing is cleared below 65535 and nothing set there |
| PurchaseIds.KeepsTheMostRecent | abstraction/vcookie.h:131-152 | after any history the list is the last five of the distinct ids in order of last use |
| PurchaseIds.RecencyIsByLastUse | abstraction/vcookie.h:135-145 | of two ids in that order, the later one was used after the last use of the earlier one |
| PurchaseIds.UsingItRebuildsIt | abstraction/vcookiestore.cpp:228-235 | replaying a valid list into an empty one rebuilds it |
| PurchaseIds.UseKeepsValid | abstraction/vcookie.h:132-152 | the list stays distinct and at most five long |
| Cookies.ApplyKeepsWellFormed | abstraction/vcookie.h:118-251 | every operation keeps the index sorted, the purchase ids valid and the identity |
| Cookies.RunKeepsWellFormed | abstraction/vcookie.h:118-251 | so does every run of operations |
| Cookies.LookAlikeIff | abstraction/vcookie.h:155-295 | enumeration and lookups agree iff compared scalars and essential entries do |
| Cookies.SameGettersIff | abstraction/vcookie.h:155-330 | no getter tells two cookies apart iff compared scalars and observed entries agree |
| Cookies.UnmarkedChangeIff | abstraction/vcookie.h:132-182 | which operations change what all getters show without marking the cookie, and which of them enumeration shows |
| Cookies.RunMarksIff | abstraction/vcookie.h:118-251 | a run marks the cookie iff one of its operations does; else it only reorders purchase ids and empties variables |
| Cookies.UnmarkedRunIff | abstraction/vcookie.h:132-182 | after a run without a mark all getters agree iff the cookie is the same; enumeration and lookups are enough to tell |
| Cookies.EqualityExactly | abstraction/vcookie.h:404-467 | with element counts below 2^32, enumeration shows the same iff `operator ==` holds and both set the same ids |
| Cookies.EqualsOnMaps | abstraction/vcookie.h:404-467 | on the maps of variables: scalars agree, the lowest set ids agree or there are none, and every set id of the left cookie finds its own elements in the right one |
| Cookies.EqualityIsNotSymmetric | abstraction/vcookie.h:460-461 | two cookies that are equal in one direction only |
| Cookies.MutualEqualityIsNotEnough | abstraction/vcookie.h:443-465 | two cookies equal in both directions that enumerate differently |
| Cookies.ClearedEntriesAreNotCompared | abstraction/vcookie.h:436-465 | two cookies that are equal and enumerate alike, but answer a lookup differently |
| CookieRuns.NeverSetStays | abstraction/vcookie.h:118-152 | after any run, a field that no operation sets is unchanged |
| CookieRuns.LastSetWins | abstraction/vcookie.h:118-129 | after any run, a field has the last value it was set to |
| CookieRuns.FlagsOfRun | abstraction/vcookie.h:111-251 | from an unmarked cookie, each group flag is set iff the run changed its group, the modified flag iff one of them is |
| VCookies.InsertListing | abstraction/vcookie.h:198-203 | appending to relVar and inserting into relVarSort keeps a sorting permutation and inserts one list entry |
| VCookies.UpdateListing | abstraction/vcookie.h:204-231 | overwriting a slot of relVar replaces one list entry |
| VCookies.VCookie.constructor | abstraction/vcookie.h:37-55 | a new cookie is blank |
| VCookies.VCookie.Reset | abstraction/vcookie.h:85-109 | everything is cleared but the flags |
| VCookies.VCookie.ClearModified | abstraction/vcookie.h:77 | all modified flags are reset, nothing else |
| VCookies.VCookie.GetLastHitTimeVisitorLocal | abstraction/vcookie.h:159 | answers with the last hit time, as enumeration shows it |
| VCookies.VCookie.GetLastPurchaseTimeGMT | abstraction/vcookie.h:162 | answers with the last hit time, as enumeration shows it |
| VCookies.VCookie.MoveToEnd | abstraction/vcookie.h:137-142 | shifting in place removes the id and appends it |
| VCookies.VCookie.SetPurchaseId | abstraction/vcookie.h:132-152 | one use of an id; the result tells whether it was absent |
| VCookies.VCookie.FindRelationPos | abstraction/vcookie.h:337-358 | the binary search terminates at the least position not below the id |
| VCookies.VCookie.FindRelationId | abstraction/vcookie.h:331-335 | the handle of the entry at that position, whatever its id |
| VCookies.VCookie.ClearVar | abstraction/vcookie.h:175-182 | empties the entry found, leaves the cookie flags alone |
| VCookies.VCookie.Place | abstraction/vcookie.h:211-231 | the elements after LAST, FIRST or LINEAR allocation, with the bounded pop loop |
| VCookies.VCookie.StoreAt | abstraction/vcookie.h:198-206 | a slot is reused or inserted at the position found; the index stays valid |
| VCookies.VCookie.StoreVar | abstraction/vcookie.h:195-233 | SetVar for a non-empty value, with FIRST's early return |
| VCookies.VCookie.SetVar | abstraction/vcookie.h:187-234 | the whole effect of SetVar; a handle is returned exactly for a stored LINEAR element and belongs to the id |
| VCookies.VCookie.AddLinearElement | abstraction/vcookie.h:237-251 | appends to the variable behind the handle; a stale handle does nothing |
| VCookies.VCookie.GetVarElementCount | abstraction/vcookie.h:253-267 | the 32-bit count of what the lookup finds on the map, and a usable handle iff it is not zero |
| VCookies.VCookie.GetVarById | abstraction/vcookie.h:276-282 | an element by handle and index, or none |
| VCookies.VCookie.GetVar | abstraction/vcookie.h:268-275 | an element of what the lookup finds on the map, or none |
| VCookies.VCookie.GetSetVar | abstraction/vcookie.h:311-320 | the first set id from a position on |
| VCookies.VCookie.GetFirstSetVar | abstraction/vcookie.h:284-287 | the lowest set id |
| VCookies.VCookie.GetNextSetVar | abstraction/vcookie.h:288-295 | the next set id after any id |
| VCookies.VCookie.GetModifiedVar | abstraction/vcookie.h:321-330 | the first marked variable from a position on |
| VCookies.VCookie.GetFirstModifiedVar | abstraction/vcookie.h:297-300 | the lowest indexed id; "none" iff no id below 65535 has an entry |
| VCookies.VCookie.GetNextModifiedVar | abstraction/vcookie.h:301-308 | the next indexed id after any id |
| VCookies.SamePurchaseIds | abstraction/vcookie.h:430-435 | elementwise comparison decides equality of the lists |
| VCookies.SameVar | abstraction/vcookie.h:444-459 | compares counts and elements of what two lookups find |
| VCookies.SameVars | abstraction/vcookie.h:436-465 | every set variable of the left cookie is matched by what its lookup finds in the right one |
| VCookies.Equal | abstraction/vcookie.h:404-467 | the loop decides exactly `Cookies.Equals` |
| Wire.ParsePrintedFields | abstraction/vcookiestore.cpp:165-237 | ascending tagged fields are read back up to a tag that is not one of them |
| Wire.ParsePrintedGroups | abstraction/vcookiestore.cpp:247-272 | variable groups are read back up to the sentinel |
| Wire.ParseLayout | abstraction/vcookiestore.cpp:140-272 | parsing inverts printing, whatever follows and whatever later fields were added; a wrapped offset is refused |
| Wire.ParseStable | abstraction/vcookiestore.cpp:50-73 | an accepted buffer keeps its meaning and its end when bytes are appended, and the end lies inside it |
| Wire.PrefixRejected | abstraction/vcookiestore.cpp:140-272 | no proper prefix of a message that ends at its buffer's end is accepted |
| Wire.ParsedNulFree | abstraction/vcookiestore.cpp:60-73 | nothing parsed from any buffer contains a NUL |
| WireLanguage.AcceptsIff | abstraction/vcookiestore.cpp:140-272 | a buffer is accepted with given fields and groups iff these are well formed and stand in it at the places the header says |
| WireLanguage.NewerVersionIsNotRead | abstraction/vcookiestore.cpp:150-161 | a short header or a newer readable version is refused before anything is read |
| WireLanguage.OffsetBeforeEndIsRefused | abstraction/vcookiestore.cpp:240-243 | an offset before the end of the fields is refused after they have been read |
| WireLanguage.CutMessage | abstraction/vcookiestore.cpp:140-272 | a message cut off anywhere is refused, having yielded exactly the fields, ids and elements that lie wholly within the rest |
| ExactBytes.SampleBytes | abstraction/vcookiestore.cpp:76-138 | the bytes of a cookie with something in every field, written out, with and without the last hit time |
| Codec.DecodeKeepsInvariants | abstraction/vcookiestore.cpp:140-272 | on any buffer, accepted or not, the cookie's invariants and identity survive |
| Codec.ReplayFields | abstraction/vcookiestore.cpp:165-237 | replaying a cookie's own fields overlays exactly its non-zero scalars and its purchase ids |
| Codec.ReplayElems | abstraction/vcookiestore.cpp:256-269 | a group rebuilds a variable from its first non-empty element on, or nothing |
| Codec.ReplayGroups | abstraction/vcookiestore.cpp:255-271 | replaying a cookie's own groups rebuilds its set variables in order |
| CookieRuns.GroupOverOld | abstraction/vcookiestore.cpp:256-269 | several elements read over an existing variable follow as many of its last elements as there are new ones, less one |
| CookieRuns.LoneElementOverOld | abstraction/vcookiestore.cpp:256-269 | one element replaces an existing variable; an empty one clears what a lookup finds |
| CodecTheorems.ParseEncoded | abstraction/vcookiestore.cpp:76-138 | a serialized cookie without NULs parses to its own message and ends at its end |
| CodecTheorems.DecodeEncoded | abstraction/vcookiestore.cpp:76-272 | what comes back from a serialized cookie, field by field |
| CodecTheorems.DecodedIsNulFree | abstraction/vcookiestore.cpp:140-272 | decoding never stores a text with a NUL |
| CodecTheorems.EnumerationReturnsIff | abstraction/vcookiestore.cpp:76-272 | enumeration survives the round trip, with or without the last hit time in the blob, iff the cookie is codable |
| CodecTheorems.LooksReturnIff | abstraction/vcookiestore.cpp:76-272 | enumeration and lookups survive it iff the cookie is codable and settled |
| CodecTheorems.RoundTripIff | abstraction/vcookiestore.cpp:76-272 | all getters survive it iff the cookie is codable and its variables are all set |
| CodecTheorems.ClearedIdIsForgotten | abstraction/vcookie.h:297-300 | a cookie whose enumeration and lookups survive, but whose first modified variable does not |
| CodecTheorems.OnlyClearedIsReachable | abstraction/vcookie.h:175-234 | setting and clearing 5 leaves that cookie's variables |
| CodecTheorems.ClearedBelowIsReachable | abstraction/test.cpp:41-45 | setting 12 and 11 and clearing 11 leaves a cleared entry below a set one |
| CodecTheorems.ClearedIdComesBack | abstraction/vcookiestore.cpp:124-137 | that cookie is codable, and its cleared id comes back with the elements of its neighbour |
| CodecTheorems.SentinelIsLost | abstraction/vcookiestore.cpp:124-137 | a codable cookie with a variable under 65535, which is gone after the round trip |
| CodecTheorems.RoundTripIsIdentical | abstraction/vcookiestore.cpp:76-272 | what comes back is `==` in both directions and serializes to identical bytes |
| CodecTheorems.LaterFieldsAndTrailingBytes | abstraction/vcookiestore.cpp:238-245 | unknown later fields and trailing bytes change nothing: enumeration is the same, lookups iff the cookie is settled, all getters iff its variables are all set |
| CodecTheorems.AcceptedIgnoresTail | abstraction/vcookiestore.cpp:140-272 | for any accepted buffer, appended bytes change nothing |
| CodecTheorems.PrefixesRefused | abstraction/vcookiestore.cpp:140-272 | every proper prefix of a serialized cookie is refused |
| CodecTheorems.CutCookie | abstraction/vcookiestore.cpp:140-272 | reading a cut-off cookie fails, and sets exactly the fields and elements that lie wholly within it |
| CodecTheorems.BytesShowOnlyTheEnumeration | abstraction/vcookiestore.cpp:76-138 | the bytes depend only on what enumeration shows |
| CodecTheorems.CanonicalForm | abstraction/vcookiestore.cpp:76-138 | identical bytes iff enumeration shows the same |
| CodecTheorems.CanonicalForLookups | abstraction/vcookiestore.cpp:76-138 | enumeration and lookups agree iff bytes and essential entries do; among settled cookies iff the bytes do |
| CodecTheorems.CanonicalForAllGetters | abstraction/vcookiestore.cpp:76-138 | no getter tells two cookies apart iff bytes and observed entries agree; if all variables are set, iff the bytes agree |
| CodecTheorems.EqualityAgainstBytes | abstraction/vcookie.h:404-467 | for serializable cookies, identical bytes iff `operator ==` holds and both set the same ids |
| CodecTheorems.ShadowedTimesSurviveIff | abstraction/vcookie.h:159-162 | the two shadowed times survive iff they equal the last hit time |
| CodecTheorems.LastHitIsNotLeftOut | abstraction/vcookiestore.cpp:91-100 | bytes without the last hit time still differ for every other last hit time |
| CodecTheorems.NulMakesBytesAmbiguous | abstraction/vcookiestore.cpp:25-32 | two different cookies with the same bytes, one with a NUL in a text |
| CodecTheorems.RunsAreCodable | abstraction/vcookie.h:184-234 | cookies built by runs of setters are codable as soon as the header fits |
| Serializer.AddTime | abstraction/vcookiestore.cpp:33-40 | a tag and a 64-bit value, or nothing for zero |
| Serializer.AddCount | abstraction/vcookiestore.cpp:33-40 | a tag and a 32-bit value, or nothing for zero |
| Serializer.AddText | abstraction/vcookiestore.cpp:41-48 | a tag and a terminated text, or nothing for an empty one |
| Serializer.AddPurchaseIds | abstraction/vcookiestore.cpp:110-117 | tag, 8-bit count and that many terminated ids |
| Serializer.SerializeFields | abstraction/vcookiestore.cpp:91-117 | writes exactly the cookie's fields in the order of their tags |
| Serializer.SerializeVars | abstraction/vcookiestore.cpp:124-137 | walking the set variables writes exactly their groups and the sentinel |
| Serializer.Serialize | abstraction/vcookiestore.cpp:76-138 | writes `Encode` of the cookie's value, offset patched in afterwards |
| Deserializer.DecodeIds | abstraction/vcookiestore.cpp:228-235 | the ids read are used in order, also those before a break-off |
| Deserializer.DecodePayload | abstraction/vcookiestore.cpp:165-237 | the payload of a tag is read and set, or refused |
| Deserializer.DecodeField | abstraction/vcookiestore.cpp:165-170 | one optional field leaves the rest of the message to be done |
| Deserializer.DecodeFields | abstraction/vcookiestore.cpp:165-237 | all known tags in turn do what the parsed fields stand for |
| Deserializer.DecodeElems | abstraction/vcookiestore.cpp:256-269 | SetVar until an element is stored, AddLinearElement afterwards, does what the parsed group stands for |
| Deserializer.DecodeGroups | abstraction/vcookiestore.cpp:245-272 | the variable section, terminating on any bytes |
| Deserializer.Deserialize | abstraction/vcookiestore.cpp:140-273 | on any non-empty buffer: verdict and resulting cookie are those of `Decode`, no read is out of bounds, the cookie stays valid |
| InMemoryStore.ComparatorOrdersChainsOnly | VCStoreInMemory.h:35-38 | the comparator is a strict total order on a key set iff any two keys compare componentwise |
| InMemoryStore.CrossingVisitorsAreNotOrdered | abstraction/test.cpp:173-176 | two keys as the test makes them are each less than the other |
| InMemoryStore.VCStoreInMemory.SaveVCookie | VCStoreInMemory.h:55-64 | the entry of the cookie's key becomes its last hit time and its bytes |
| InMemoryStore.VCStoreInMemory.LoadVCookie | VCStoreInMemory.h:65-76 | the cookie becomes the decoded entry; false if there is none or it is refused |
| InMemoryStore.VCStoreInMemory.DeleteVCookie | VCStoreInMemory.h:77-83 | removes the entry and tells whether there was one |
| InMemoryStore.VCStoreInMemory.DeleteOldVCookies | VCStoreInMemory.h:84-98 | keeps exactly the entries not older than the limit and returns the drop in count |
| InMemoryStore.VCStoreInMemory.Open | abstraction/vcookie.h:37-62 | the constructor: loaded unless new, unmodified, new iff not loaded |
| InMemoryStore.VCStoreInMemory.Store | abstraction/vcookie.h:70-82 | saves and resets the cookie-level flags; afterwards the first modified variable is "none" iff no id below 65535 has an entry |
| InMemoryStore.VCStoreInMemory.Close | abstraction/vcookie.h:64-68 | the destructor saves exactly a modified cookie |
| InMemoryStore.StoreHoldsLastSaved | VCStoreInMemory.h:55-98 | after any run the store holds, per key, the cookie last saved and not removed or expired since |
| InMemoryStore.LastSavedIff | VCStoreInMemory.h:55-98 | a cookie counts as last saved iff some save of it was followed by no save or delete of its key and no expiry above its last hit |
| InMemoryStore.LoadingIsRoundTrip | VCStoreInMemory.h:65-76 | loading a saved cookie is the round trip with the last hit time supplied separately, to enumeration, to lookups and to all getters |
| InMemoryStore.OpeningReturnsLastSaved | abstraction/vcookie.h:57-61 | after any run, opening gives the last saved cookie, the same to enumeration iff it is codable, to lookups iff settled as well, to all getters iff its variables are all set, and a blank new one if there is none |
| InMemoryStore.ExpiryKeepsTheRecent | VCStoreInMemory.h:84-98 | after any run and an expiry, the last saved cookie opens the same to enumeration, lookups or all getters iff its last hit is not before the limit and it survives the codec for these; an expired one opens blank and new |
| InMemoryStore.NewVisitorStartsBlank | abstraction/vcookie.h:37-60 | a visitor known to be new gets an empty, unmarked cookie that is new, whatever the store holds |
| InMemoryStore.NewVisitorSession | abstraction/vcookie.h:37-68 | a marked change to it replaces what the store held and comes back as a saved cookie does; without a mark nothing changed |
| InMemoryStore.ChangeSurvivesSessionIff | abstraction/vcookie.h:37-68 | what any run of operations made of an opened cookie is there after closing and reopening iff it was marked and survives the codec for enumeration, lookups or all getters, or nothing changed |
| Timespec.MinusIsDifference | testharness.cpp:101-112 | the subtraction with borrow is the difference in nanoseconds, or 0 |
| RateMeter.RateMonitor.constructor | testharness.cpp:238-241 | no entries, an empty count and a running clock |
| RateMeter.RateMonitor.Start | testharness.cpp:251-256 | a fresh clock and an empty count, earlier entries kept |
| RateMeter.RateMonitor.CloseSeconds | testharness.cpp:271-284 | one entry per full second passed, each with the events of its second |
| RateMeter.RateMonitor.Increment | testharness.cpp:259-288 | entries and open count agree with the log after every call |
| RateMeter.RateMonitor.TallyUp | testharness.cpp:301-319 | full seconds closed, at most one scaled partial entry and only if no second was closed, earlier entries kept |
| RateMeter.RateMonitor.Stop | testharness.cpp:291-323 | full seconds closed and the partial entry written out, whether or not the clock is running; the meter is empty and not running afterwards |
| RateMeter.ScaledIsFloor | testharness.cpp:315-319 | the partial entry is the count times 10^9 over the rest, rounded down |
| RateMeter.StoppedAgain | testharness.cpp:291-323 | stopping a stopped meter adds a zero entry for every second up to now and keeps the others |
| RateMeter.CountedInOwnSecond | testharness.cpp:267-287 | with a clock that does not go back every event is counted in its own second |
| RateMeter.EntriesAddUp | testharness.cpp:267-287 | entries plus open count are all events |
| RateMeter.AllAreCounted | testharness.cpp:267-287 | no event is lost or counted twice, whatever the clock does |
| RateMeter.ScaledUp | testharness.cpp:315-319 | the partial entry lies between the open count and 20 times it |
| RateControl.RateController.constructor | testharness.cpp:119-149 | the clock starts at the current reading with no events |
| RateControl.RateController.IncrementAndWait | testharness.cpp:153-214 | returns at or after the target, by less than one yield or one oversleep; every sleep asked for ends in the last microsecond before the target; terminates |
| RateControl.TargetIsRounded | testharness.cpp:195-200 | the target is what the rate asks for, short of it by less than a nanosecond per event |
| RateControl.PaceKeepsRateIff | testharness.cpp:195-200 | keeping the pace keeps the rate iff the rate divides 10^9 |
| ThreadTotals.AddRate | testharness.cpp:863-870 | one worker's rates added or appended keep the total of all workers |
| ThreadTotals.AddTimer | testharness.cpp:873-885 | one worker's timings, weighted by its rates, keep the weighted total |
| ThreadTotals.Divide | testharness.cpp:992-1000 | weighted totals become averages; the timer never outruns the rate |
| ThreadTotals.Totals.Report | testharness.cpp:858-899 | after each report the shared vectors are the totals of all workers so far |
| ThreadTotals.Totals.Finish | testharness.cpp:990-1010 | the rates stay, the timers become averages |
| ThreadTotals.TimerNotLonger | testharness.cpp:994-996 | the assumption the comment states: a timer is never longer than the rate |
| ThreadTotals.CompletionOrderIsIrrelevant | testharness.cpp:851-900 | totals and lengths are the same for every order of completion |
| ThreadTotals.AverageIsBetween | testharness.cpp:992-1010 | an average is at most the largest contributing timing, and at least the smallest if all with events contributed |
| ThreadTotals.AverageIsFloor | testharness.cpp:992-1010 | an average is the weighted total over the rate, rounded down, and 0 without events |
| ThreadTotals.TwoWorkers | testharness.cpp:863-885 | two workers: rates add up, reads and writes are weighted by their own worker's rate |
| ThreadTotals.LengthsAre | testharness.cpp:863-885 | the total is as long as the longest rate, a timer as the longest part with a rate to it |
| TestSuite.FilterPass | abstraction/fct.h:348-389 | a filter passes exactly the names it is a prefix of |
| TestSuite.PassFilter | abstraction/fct.h:2240-2272 | a name passes iff there is no filter or one of them is its prefix |
| TestSuite.Suite.VisitTests | abstraction/fct.h:3495-3544 | one pass over the test macros counts all tests, or runs or skips exactly the current one |
| TestSuite.Suite.Run | abstraction/fct.h:3375-3452 | a suite of n tests ends after 2n+2 passes with the log that is due, all mode assertions met |
| TestSuite.LogIsComplete | abstraction/fct.h:3495-3544 | one setup and one teardown per test, each selected test exactly once, no other |
| TestSuite.LogIsInOrder | abstraction/fct.h:3495-3544 | tests run in source order |
| TestSuite.TestIsFramed | abstraction/fct.h:3440-3452 | every test runs directly between its own setup and its own teardown |
| TestSuite.SetupsAreBalanced | abstraction/fct.h:3440-3452 | at any time there have been as many setups as teardowns, or one more |
| TestSuite.ExecutedAre | abstraction/fct.h:3495-3544 | the collected tests are the selected ones, each once and in order |
| GrowableList.AppendIsAmortized | abstraction/fct.h:807-828 | from any start size and over any run, growth copies at most two elements per append |
| GrowableList.NList.constructor | abstraction/fct.h:756-779 | an empty list of the given capacity |
| GrowableList.NList.Clear | abstraction/fct.h:729-742 | empties the list, keeps its capacity |
| GrowableList.NList.Size | abstraction/fct.h:789-794 | the length of the contents |
| GrowableList.NList.At | abstraction/fct.h:798-804 | an element of the contents |
| GrowableList.NList.Append | abstraction/fct.h:807-828 | appends to the contents; a full array of n grows to 2n+2 and n elements are copied |
| ClientMerge.AddUpTo | aggregateResults.pl:119-125 | entries are added or created up to a length |
| ClientMerge.Merge | aggregateResults.pl:88-134 | the loop computes the merge of the servers in the order given, then the averages |
| ClientMerge.DivideAll | aggregateResults.pl:130-134 | every total divided by the number of servers, rounded down |
| ClientMerge.PositiveWindowsMerge | aggregateResults.pl:92-126 | with positive windows: the length of the shortest, each entry the sum over all servers |
| ClientMerge.MergedLength | aggregateResults.pl:98-117 | with positive windows the merge is as long as the latest start leaves of every report, and no shorter |
| ClientMerge.ColumnsAreKept | aggregateResults.pl:119-125 | each column adds up its own numbers |
| ClientMerge.RestartsAfterEmptyWindow | aggregateResults.pl:103-117 | a server with an empty window erases everything before it |
| ClientMerge.MergeIsFullIff | aggregateResults.pl:92-126 | when the merge computes what it is meant to |
| ClientMerge.MergedAreLive | aggregateResults.pl:103-125 | only the servers after the last empty window are merged |
| ClientMerge.MergeAlignsIff | aggregateResults.pl:72-125 | for given starts and sizes, none after the latest start, the merge adds up the same seconds whatever the reports hold iff nothing is merged, or the merged servers with entries all started at the latest start and no entry of the others reaches it |
| ClientMerge.LateStartIsMisplaced | aggregateResults.pl:98-125 | two reports whose first merged entry adds up different seconds |
| ClientMerge.EmptyReportIsMisplaced | aggregateResults.pl:103-125 | three reports of one start, the second empty, that lose the first |
| ClientMerge.ServerOrderIsIrrelevant | aggregateResults.pl:92-126 | with positive windows the order of the servers does not matter |

## Left out

- Timespec.MinusIsDifference: does not model the 64-bit wrap of intervals above 584 years.
- RateMeter.RateMonitor.Stop: counters are unbounded; the 64-bit product of the partial entry wraps only above 18 thousand million events in a second.
- RateControl.RateController.IncrementAndWait: the clock is an environment in which sleeps last at least as long as asked for and yields take some time; the 64-bit wrap of the target after 584 years is not modelled.
- ThreadTotals.AverageIsBetween: sums are unbounded, and each worker's timing vectors are fixed inputs, although in the source reading them appends to them (testharness.cpp:395-427).
- InMemoryStore.StoreHoldsLastSaved: the map identifies keys by equality; what `std::map` does with keys that its comparator does not order is not modelled.
- InMemoryStore.VCStoreInMemory.Open: a cookie is opened and closed by methods of the store instead of its own constructor and destructor; exceptions in `Store` are not modelled.
- Deserializer.Deserialize: an empty buffer, whose first byte the source takes the address of, is outside the contract. For an offset beyond the buffer the source forms an address out of range before it finds that nothing can be read there (abstraction/vcookiestore.cpp:245-248); the model only refuses.
- Cookies.SameGettersIff: compares the elements of a variable in full; a 32-bit index reaches only the first 2^32 of them.
- `GetVCookie` by index (its loop never advances) and the default batch loops of the store interface.
- The network store, the no-operation store, hit sources, configuration, console output, mutexes and thread creation.
- The hit-based branch of `rateControl` (floating point) and the class `hiResTimer`.
- In fct.h: loggers, pipes, command line, timers, check tallies, conditional skips and aborts of a suite.
- The other report scripts and the unimplemented `VCookieUser`.
