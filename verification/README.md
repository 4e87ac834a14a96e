# Proofs about cookpit and the libraries it ships

A Dafny model of the algorithms that cookpit rests on, and proofs of what they promise. `dafny verify
dfyconfig.toml` checks everything.

* **Bipartite matching** (`MatchGraph.dfy`, `BipartiteMatching.dfy`): Google Mock decides
  `UnorderedElementsAre` by an augmenting-path search over two arrays that refer to each other. The
  search is proved to give a maximum matching; the failed searches leave behind a vertex cover of the
  same size, or a set of matchers that violates Hall's condition.
* **Expectations** (`Expectations.dfy`): the graph of mock expectations, with the traversals that stop
  at retired or satisfied nodes, and whole runs of mock calls over it.
* **Proxy cache** (`ProxyCache.dfy`): Djinni's cache of proxies, once as the object whose methods update
  a map, and once as a protocol in which `get`, expiry of weak references, the delayed `remove` of a
  dying handle, freeing and reuse of addresses interleave freely.
* **Transcoding** (`Transcoding.dfy`): Djinni's conversions between UTF-8 and UTF-16 at the level of
  bits and cursor loops, against the grammar of section 4 of RFC 3629 and section 2 of RFC 2781.
* **json11**: values (`JsonValue.dfy`), comparison (`JsonOrder.dfy`, `JsonSharing.dfy`), the grammar of
  RFC 8259 as derivation trees (`JsonGrammar.dfy`), what the parser computes (`JsonParse.dfy`), the
  parser object with its cursor and sticky first error (`JsonParser.dfy`), completeness and soundness
  against the grammar (`JsonComplete.dfy`, `JsonSound.dfy`), scalars and errors character by character
  (`JsonSpelling.dfy`, `JsonErrors.dfy`), the printer and the round trip (`JsonDump.dfy`,
  `JsonPrinter.dfy`, `JsonLayout.dfy`), comments (`JsonStrip.dfy`) and `parse_multi` (`JsonMulti.dfy`,
  `JsonStream.dfy`).
* **Prime tables** (`Primes.dfy`): Google Test's sample of three implementations of one interface.
* **Explore controller** (`Explore.dfy`): the application's paged list, filled from the cache and then
  from the network.

What the C library does to convert numbers is a parameter (`JsonGrammar.Library`): `strtod`, and the
literal that `%.17g` prints. The round trip assumes of it that integers up to 2^53 are read exactly and
that a printed double is read back (`JsonDump.Exact`); `ExactIsPossible` shows that this can be met.
The responses of the network and the order in which threads take steps are inputs, over which the main
results quantify.

## Where the code does less than one might expect

* `HybridPrimeTable::GetNextPrime(-1)` gives 2 with a table of at least 2 and -1 without one; from 0 on
  all implementations agree.
* The explore controller reads the page of a response back from one digit of the URL, so it is right
  exactly up to page 9, and a response from page 10 on overwrites the page of its first digit
  (`Explore.FarPageGoesToFirstDigit`). A short page that is cached or shown stays in the list when it is
  requested again, and a page that is skipped gives up its place. Two properties are kept apart. Each page
  stands in its own place of ten, so that all but the last are full: `Explore.StepInPlace` has the exact
  condition for every request, `Explore.RunInPlace` carries it over whole runs, and
  `Explore.FullPagesRun` shows that runs over full pages meet it. The weaker one, that the list is the
  concatenation of the stored pages of whatever sizes, can outlast it
  (`Explore.ConcatenationOutlastsPlaces`); `Explore.StepConcatenates` and `Explore.RunConcatenates` have
  the exact condition for requests of the next page.
* An excessive call, and every call to an expectation with `Times(0)` is one, retires no prerequisites.
  After a call what must come before can no longer be called if and only if the expectation accepts
  calls at all or what is directly before it was retired already (`Expectations.Expectation.HandleCall`).
* Printing turns infinities and NaN into `null`, so such values do not survive a round trip
  (`JsonDump.RoundTrip` says exactly which do). A value that holds a NaN is equal to another one exactly
  where the address test finds shared parts: `operator==` differs from a comparison of the trees exactly
  for values that it calls equal and that hold a NaN (`JsonSharing.ShortcutExactForEq`).
* The UTF-16 that Java receives holds lone surrogates exactly if the UTF-8 has unpaired surrogates in
  three bytes (`Transcoding.OutputIsWellFormed16Iff`).
* `parse_multi` leaves one more entry in its result when it fails: the value before a malformed comment,
  or for a value that cannot be read null, and inside a top-level string an empty string. `JsonMulti.Good`
  drops it.

## Model

| member | source | states |
|---|---|---|
| BipartiteMatching.MaxBipartiteMatchState.TryAugment | vendors/googletest/googlemock/src/gmock-matchers.cc:243-285 | ends because fewer right nodes are unseen; on success one free right node is gained, the searched node has a new partner, no left node loses its partner and only its old partner's link is stale; on failure nothing is relinked and every newly seen right node has a partner whose neighbours are all seen; a dead region is never entered or altered |
| BipartiteMatching.Relinked | vendors/googletest/googlemock/src/gmock-matchers.cc:277-282 | taking the edge after the recursive search turns the partner's success into one's own, with the broken mutual link repaired |
| BipartiteMatching.DeadRegionGrows | vendors/googletest/googlemock/src/gmock-matchers.cc:210-221 | the marks of a failed search join the region that no augmenting path can cross, which is why one search for each left node is enough |
| BipartiteMatching.Certify | vendors/googletest/googlemock/src/gmock-matchers.cc:210-221 | once every unmatched left node was searched in vain, the links are a matching and some vertex cover is no larger |
| BipartiteMatching.MaxBipartiteMatchState.Compute | vendors/googletest/googlemock/src/gmock-matchers.cc:207-238 | the links are mutual, the check that the next left node is unused holds, and the listed pairs are a matching certified maximum by a cover |
| BipartiteMatching.CertifiedIsMaximum | vendors/googletest/googlemock/src/gmock-matchers.cc:206-221 | no matching of the graph is larger than a certified one |
| BipartiteMatching.FindMaxBipartiteMatching | vendors/googletest/googlemock/src/gmock-matchers.cc:307-310 | a matching, and no matching has more edges |
| MatchGraph.WeakDuality | vendors/googletest/googlemock/src/gmock-matchers.cc:206-221 | no matching is larger than a vertex cover |
| MatchGraph.SmallCoverViolatesHall | vendors/googletest/googlemock/src/gmock-matchers.cc:332-335 | if a cover is smaller than the number of matchers, the matchers outside it accept fewer elements than there are of them |
| MatchGraph.HallViolatorBlocksAssignment | vendors/googletest/googlemock/src/gmock-matchers.cc:332-335 | a set of matchers with too few acceptable elements rules out every assignment |
| MatchGraph.FullMatchingGivesAssignment | vendors/googletest/googlemock/src/gmock-matchers.cc:332-333 | a matching with as many edges as matchers gives every matcher an element of its own |
| BipartiteMatching.FindPairing | vendors/googletest/googlemock/src/gmock-matchers.cc:328-357 | true if and only if all matchers can be given distinct elements that they accept; false if and only if some set of matchers violates Hall's condition |
| BipartiteMatching.VerifyAllElementsAndMatchersAreMatched | vendors/googletest/googlemock/src/gmock-matchers.cc:443-495 | true exactly when every element and every matcher has some edge |
| BipartiteMatching.PairingMatchesAll | vendors/googletest/googlemock/include/gmock/gmock-matchers.h:3400-3402 | with equal sizes, where a pairing exists the quick check cannot fail |
| BipartiteMatching.MatchAndExplain | vendors/googletest/googlemock/include/gmock/gmock-matchers.h:3376-3403 | the matcher accepts exactly when the sizes are equal and a pairing exists, quick check or not |
| MatchGraph.SpaceIndexInjective | vendors/googletest/googlemock/include/gmock/gmock-matchers.h:3284-3286 | different pairs of nodes have different cells |
| BipartiteMatching.MatchMatrix.SetEdge | vendors/googletest/googlemock/include/gmock/gmock-matchers.h:3270-3272 | this edge is as asked and every other edge is as before |
| BipartiteMatching.MatchMatrix.NextGraph | vendors/googletest/googlemock/src/gmock-matchers.cc:359-371 | adds one to the matrix read as a binary number, and says false exactly when that wrapped to the empty graph |
| BipartiteMatching.ValueInjective | vendors/googletest/googlemock/include/gmock/gmock-matchers.h:3274-3276 | different matrices are different numbers |
| BipartiteMatching.AllGraphs | vendors/googletest/googlemock/include/gmock/gmock-matchers.h:3253-3277 | going on with NextGraph from the empty graph until it says false meets every graph of the size, and none twice |
| Expectations.Expectation.constructor | vendors/googletest/googlemock/src/gmock-cardinalities.cc:52-54 | starts uncalled and unretired; a negative lower bound counts as none, and the upper bound is never below the lower one |
| Expectations.ClosedUnderReaches | vendors/googletest/googlemock/src/gmock-spec-builders.cc:97-101 | in a closed graph everything a retired expectation depends on is retired, which is what the short cut needs |
| Expectations.Expectation.RetireAllPreRequisites | vendors/googletest/googlemock/src/gmock-spec-builders.cc:94-111 | retires exactly the transitive prerequisites despite its early returns, and keeps the retired set closed |
| Expectations.Expectation.AllPrerequisitesAreSatisfied | vendors/googletest/googlemock/src/gmock-spec-builders.cc:113-125 | true if and only if every prerequisite at any distance was called at least as often as its lower bound says and at most as often as its upper one |
| Expectations.Expectation.FindUnsatisfiedPrerequisites | vendors/googletest/googlemock/src/gmock-spec-builders.cc:127-146 | adds exactly the unsatisfied expectations reached through satisfied ones that were never called |
| Expectations.BlocksSound | vendors/googletest/googlemock/src/gmock-spec-builders.cc:127-146 | only unsatisfied prerequisites are reported |
| Expectations.BlocksComplete | vendors/googletest/googlemock/src/gmock-spec-builders.cc:133-143 | every unsatisfied prerequisite is reported or precedes one that is, although called expectations are skipped |
| Expectations.NothingBlocksIffSatisfied | vendors/googletest/googlemock/src/gmock-spec-builders.cc:113-146 | the collector finds nothing if and only if all prerequisites are satisfied |
| Expectations.Expectation.ShouldHandle | vendors/googletest/googlemock/include/gmock/gmock-spec-builders.h:1091-1102 | unretired, prerequisites satisfied at any distance, and matched |
| Expectations.Expectation.HandleCall | vendors/googletest/googlemock/include/gmock/gmock-spec-builders.h:1188-1218 | counts one call; excessive exactly if the upper bound was reached before; retires exactly the prerequisites, and itself when it is to retire and the call reaches the upper bound, nothing when excessive, and keeps the graph's invariant; afterwards nothing that had to come before can handle any call, if and only if the expectation accepts calls at all or what is directly before it was retired already |
| Expectations.ClosedIffRetired | vendors/googletest/googlemock/include/gmock/gmock-spec-builders.h:1092-1102 | when its prerequisites are satisfied, nothing before an expectation can handle any call exactly if everything directly before it is retired |
| Expectations.Sequence.AddExpectation | vendors/googletest/googlemock/src/gmock-spec-builders.cc:793-802 | appends the expectation once, with the previous last as a prerequisite; edges lead to older expectations only, and the invariant is kept |
| Expectations.Sequence.EarlierIsReached | vendors/googletest/googlemock/src/gmock-spec-builders.cc:793-802 | everything earlier in a sequence is a transitive prerequisite of everything later |
| Expectations.FindMatchingExpectation | vendors/googletest/googlemock/include/gmock/gmock-spec-builders.h:1712-1728 | the newest expectation that can handle the call, or none if there is none |
| Expectations.Play | vendors/googletest/googlemock/include/gmock/gmock-spec-builders.h:1712-1728 | in any sequence of calls: who handles a call is the newest in its list that is accepting, not retired by the calls so far and with every prerequisite at any distance called within its bounds, and the call goes unhandled if and only if there is none; no call is handled by a prerequisite of what accepted a call before |
| Expectations.ExcessiveCallKeepsEarlier | vendors/googletest/googlemock/include/gmock/gmock-spec-builders.h:1195-1206 | an instance of the open case: after a call to an expectation that expects none, its prerequisite handles the next call |
| ProxyCache.Pimpl.Get | vendors/djinni/support-lib/proxy_cache_impl.hpp:79-98 | returns the live proxy of the key and changes nothing, or drops the expired entry and caches and returns the new proxy |
| ProxyCache.Pimpl.Remove | vendors/djinni/support-lib/proxy_cache_impl.hpp:103-120 | drops the entry of the key only if its proxy is no longer alive |
| ProxyCache.NextInv | vendors/djinni/support-lib/proxy_cache_interface.hpp:110-145 | every step of any thread keeps the invariant: entries belong to live proxies or to handles whose `remove` is pending, live objects have distinct addresses, a key being allocated has no entry |
| ProxyCache.RunSafe | vendors/djinni/support-lib/proxy_cache_impl.hpp:79-120 | in every reachable state there is at most one live proxy for an interface of an object, the cache holds it, and each key's object is owned and the only one at its address |
| ProxyCache.GetReturnsTheLiveProxy | vendors/djinni/support-lib/proxy_cache_impl.hpp:79-98 | a lookup hits exactly when the object itself has a live proxy for the interface, and finds that one, even when addresses are reused |
| ProxyCache.GetIsAtomic | vendors/djinni/support-lib/proxy_cache_impl.hpp:79-98 | a `get` that allocates changes the map as the one call of `Pimpl.Get` does, whatever other threads do between its steps |
| ProxyCache.IdentityPreserved | vendors/djinni/support-lib/proxy_cache_impl.hpp:56-59 | as long as a proxy lives, every later `get` for the same object returns it |
| ProxyCache.RemoveSparesLive | vendors/djinni/support-lib/proxy_cache_impl.hpp:107-118 | a late `remove` leaves the entry of every live proxy |
| ProxyCache.EntriesDoNotOutliveHandles | vendors/djinni/support-lib/proxy_cache_interface.hpp:110-136 | when no live proxy and no pending `remove` is left for a key, its entry is gone |
| ProxyCache.HitIsPossible | vendors/djinni/support-lib/proxy_cache_impl.hpp:79-90 | in every reachable state an owner of an object with a live proxy can get that proxy while nobody allocates |
| ProxyCache.MissIsPossible | vendors/djinni/support-lib/proxy_cache_impl.hpp:79-98 | and without a live proxy it can get a new one |
| ProxyCache.LifeGoesOn | vendors/djinni/support-lib/proxy_cache_interface.hpp:129-136 | a live proxy can expire, be removed and release its object, and then exactly its own entry is gone |
| ProxyCache.AddressComesFree | vendors/djinni/support-lib/proxy_cache_interface.hpp:110-136 | once the last owner lets go of an object, another object can have its address |
| ProxyCache.GuardIsNeeded | vendors/djinni/support-lib/proxy_cache_impl.hpp:107-118 | a reachable state in which `remove` without the expiry check would evict a live proxy |
| Transcoding.Utf8DecodeCheck | vendors/djinni/support-lib/jni/djinni_support.cpp:285-337 | never reads beyond the terminator, and a valid result lies within the string |
| Transcoding.DecodeIffEncoded8 | vendors/djinni/support-lib/jni/djinni_support.cpp:285-337 | decoding finds a code point in n bytes if and only if these n bytes are its encoding |
| Transcoding.CharIffSpellsScalar | vendors/djinni/support-lib/jni/djinni_support.cpp:285-337 | the characters of RFC 3629 are exactly the accepted bytes that spell a code point other than a surrogate |
| Transcoding.DecodeIffEncoded16 | vendors/djinni/support-lib/jni/djinni_support.cpp:378-392 | the same for units and surrogate pairs |
| Transcoding.DecodedByWeights8 | vendors/djinni/support-lib/jni/djinni_support.cpp:285-337 | what bytes are decoded as is what section 3 of RFC 3629 gives them by the weights of their bits, and no fewer bytes would do |
| Transcoding.DecodedByWeights16 | vendors/djinni/support-lib/jni/djinni_support.cpp:375-392 | a unit is decoded as itself and is then no surrogate, and a pair of surrogates by the weights of section 2 of RFC 2781 |
| Transcoding.EncodedStands16 | vendors/djinni/support-lib/jni/djinni_support.cpp:350-359 | a code point is encoded as one unit of its value, or as the pair that is decoded as it |
| Transcoding.Utf8Decode | vendors/djinni/support-lib/jni/djinni_support.cpp:339-348 | the cursor always moves on and stays within the string, by one byte read as U+FFFD where no character can be decoded |
| Transcoding.Utf16Decode | vendors/djinni/support-lib/jni/djinni_support.cpp:394-403 | the cursor always moves on and stays within the string, by one unit read as U+FFFD where no character can be decoded |
| Transcoding.StringFromUtf8 | vendors/djinni/support-lib/jni/djinni_support.cpp:361-372 | the loop consumes every byte string and gives its conversion |
| Transcoding.Utf8FromString | vendors/djinni/support-lib/jni/djinni_support.cpp:427-442 | the loop consumes every unit string and gives its conversion |
| Transcoding.RoundTrip8 | vendors/djinni/support-lib/jni/djinni_support.cpp:361-442 | well-formed UTF-8 comes back unchanged, through well-formed UTF-16 |
| Transcoding.RoundTrip16 | vendors/djinni/support-lib/jni/djinni_support.cpp:361-442 | well-formed UTF-16 comes back unchanged, through well-formed UTF-8 |
| Transcoding.OutputIsWellFormed8 | vendors/djinni/support-lib/jni/djinni_support.cpp:394-442 | whatever units come in, well-formed UTF-8 comes out |
| Transcoding.ConvertsPiecewise | vendors/djinni/support-lib/jni/djinni_support.cpp:381-442 | two strings of units are converted one by one as their concatenation is, if and only if no surrogate pair is cut in two |
| Transcoding.LoneSurrogateIsReplaced | vendors/djinni/support-lib/jni/djinni_support.cpp:394-442 | a surrogate that is paired on neither side becomes EF BF BD, and what is before and behind it is converted as on its own |
| Transcoding.CharacterIsConverted | vendors/djinni/support-lib/jni/djinni_support.cpp:285-372 | bytes that stand for a code point become the units that stand for it, and what follows is converted as on its own |
| Transcoding.MalformedByteIsReplaced | vendors/djinni/support-lib/jni/djinni_support.cpp:339-372 | where no bytes stand for a code point, one byte becomes one unit FFFD, and what follows is converted as on its own |
| Transcoding.OutputIsWellFormed16Iff | vendors/djinni/support-lib/jni/djinni_support.cpp:306-372 | well-formed UTF-16 comes out exactly if, wherever in the bytes, every high surrogate in three bytes is followed by a low one and every low one follows a high one |
| Transcoding.Repair8Correct | vendors/djinni/support-lib/jni/djinni_support.cpp:285-442 | there and back gives well-formed UTF-8, changes exactly the malformed strings, and twice is the same as once |
| Transcoding.Repair16Correct | vendors/djinni/support-lib/jni/djinni_support.cpp:285-442 | the same for UTF-16 |
| JsonValue.PutLookup | vendors/json11/json11.cpp:688 | storing under a key changes what that key finds and nothing else |
| JsonOrder.Trichotomy | vendors/json11/json11.cpp:161-188 | without NaN exactly one of less, equal and greater holds, through nested containers and mixed numbers |
| JsonOrder.Transitivity | vendors/json11/json11.cpp:161-188 | less and equal are transitive in every combination |
| JsonOrder.OrderNeedsNoNaN | vendors/json11/json11.cpp:161-188 | the operators decide between a value and itself exactly if it holds no NaN |
| JsonOrder.LessMeans | vendors/json11/json11.cpp:161-188 | what less means on any two trees: null, numbers, false, true, strings, arrays, objects in this order; numbers by their real values with the infinities at the ends and NaN nowhere; strings by the first byte that differs, arrays by the first elements that are not equal, objects by the first members, key before value, and a proper prefix first |
| JsonOrder.EqMeans | vendors/json11/json11.cpp:161-188 | what equal means: the same kind and the same real value or infinity, the same bytes, or equal parts one by one |
| JsonSharing.ShortcutExactForEq | vendors/json11/json11.cpp:302-310 | any two shared values are equal as trees if and only if operator== says so and they hold no NaN, at any depth and whatever they share |
| JsonSharing.SharedNaNIsVisible | vendors/json11/json11.cpp:302-310 | two different arrays that share a NaN are equal to operator== and differ as trees |
| JsonSharing.ShortcutSoundForLess | vendors/json11/json11.cpp:311-318 | comparing addresses first changes no order at all |
| JsonSharing.SharedValuesAreOrdered | vendors/json11/json11.cpp:302-318 | the operators as written are a strict total order that agrees with equality |
| JsonSharing.RefLessMeans | vendors/json11/json11.cpp:311-318 | operator< on any two handles means the same as on trees, part by part |
| JsonSharing.RefEqMeans | vendors/json11/json11.cpp:302-310 | operator== on any two handles means the same object, or the same contents part by part |
| JsonGrammar.LastDuplicateWins | vendors/json11/json11.cpp:671-700 | the map of an object is in key order and holds for each name the value of its last member |
| JsonParser.EscapedUnit | vendors/json11/json11.cpp:528-542 | the one-slot buffer pairs surrogates as reading all units first and pairing them left to right does |
| JsonParser.JsonParser.Fail | vendors/json11/json11.cpp:365-371 | the first error is kept |
| JsonParser.JsonParser.ConsumeWhitespace | vendors/json11/json11.cpp:377-380 | stops at the first byte that is none, within the input |
| JsonParser.JsonParser.ConsumeComment | vendors/json11/json11.cpp:386-418 | skips one comment or fails as specified, within the input |
| JsonParser.JsonParser.ConsumeGarbage | vendors/json11/json11.cpp:424-435 | skips whitespace, and in COMMENTS mode comments |
| JsonParser.JsonParser.GetNextToken | vendors/json11/json11.cpp:442-449 | the next byte that is neither whitespace nor comment, or the first error |
| JsonParser.JsonParser.ParseStringLiteral | vendors/json11/json11.cpp:480-567 | the loop with the buffer gives what splitting into units and then pairing surrogates gives, with the same errors |
| JsonParser.JsonParser.ParseNumberLiteral | vendors/json11/json11.cpp:573-622 | an int for plain integers of at most nine characters, else what strtod makes of the whole literal, or the error |
| JsonParser.JsonParser.ExpectLiteral | vendors/json11/json11.cpp:629-638 | the literal's value if it stands here, else the error |
| JsonParser.JsonParser.ParseJson | vendors/json11/json11.cpp:644-728 | value, next position or first error as specified, cursor within the input, failure sticky |
| JsonParser.JsonParser.ParseObjectBody | vendors/json11/json11.cpp:670-701 | the member loop puts members into the map in the order read |
| JsonParser.JsonParser.ParseArrayBody | vendors/json11/json11.cpp:703-725 | the element loop collects the elements in order |
| JsonParser.Parse | vendors/json11/json11.cpp:732-744 | the value, or null and the first error, trailing bytes included |
| JsonParser.ParseMulti | vendors/json11/json11.cpp:747-766 | values, stop position and error as specified, with the cursor moving on in every round |
| JsonComplete.ReadsItems | vendors/json11/json11.cpp:480-567 | every string of section 7 of RFC 8259 is read as its items |
| JsonComplete.ReadsNumber | vendors/json11/json11.cpp:573-622 | every number of section 6 of RFC 8259 is read to its end, and as itself |
| JsonComplete.ReadsValue | vendors/json11/json11.cpp:644-728 | on any derivation the parser returns its value and end, or fails for depth exactly when it is too high |
| JsonSound.StringDerived | vendors/json11/json11.cpp:480-567 | what is accepted as a string is one, and its value is returned |
| JsonSound.ValueDerived | vendors/json11/json11.cpp:644-728 | what is accepted as a value has a derivation within the depth limit, whose value is returned |
| JsonSound.ParsesTexts | vendors/json11/json11.cpp:732-744 | on a JSON text the result is its value, unless it is nested too deeply, and then that is the error |
| JsonSound.AcceptsExactlyTexts | vendors/json11/json11.cpp:732-744 | parse succeeds if and only if the input is a JSON text within the depth limit |
| JsonSound.AcceptsOnlyTexts | vendors/json11/json11.cpp:732-744 | the derivation of an accepted input, whose value is the result |
| JsonSound.ValueIsUnique | vendors/json11/json11.cpp:732-744 | the result does not depend on the derivation |
| JsonSpelling.ParsesStrings | vendors/json11/json11.cpp:455-567 | the result is a string if and only if the text is quotes between blanks with characters, short escapes and four-digit escapes in digits of either case between them, and then it is these bytes, and for each code point written its UTF-8 byte for byte; a surrogate pair is one code point, and a lone surrogate its three bytes |
| JsonSpelling.ParsesNumbers | vendors/json11/json11.cpp:573-622 | the result is an int if and only if the text is an integer without fraction and exponent of at most nine characters between blanks, and then the one its decimal digits say; for every other number of section 6 of RFC 8259 it is the double strtod makes of it |
| JsonSpelling.ParsesWords | vendors/json11/json11.cpp:629-665 | the result is null, true or false if and only if the text is this word between blanks |
| JsonErrors.NothingToParse | vendors/json11/json11.cpp:442-449 | blanks alone end unexpectedly |
| JsonErrors.NoValueStarts | vendors/json11/json11.cpp:644-727 | the first character that is no blank is reported if no value starts with it |
| JsonErrors.StringWithoutEnd | vendors/json11/json11.cpp:484-507 | a string that ends neither before nor behind a backslash is reported as such, whatever is written in it |
| JsonErrors.ControlInString | vendors/json11/json11.cpp:494-495 | an unescaped control character is reported |
| JsonErrors.BrokenUnit | vendors/json11/json11.cpp:511-524 | an escape of the letter u without four digits is reported |
| JsonErrors.UnknownEscape | vendors/json11/json11.cpp:551-565 | a letter that no escape has is reported |
| JsonErrors.SignWithoutDigits | vendors/json11/json11.cpp:576-590 | what follows a minus sign and is no digit is reported |
| JsonErrors.ZeroInFront | vendors/json11/json11.cpp:580-583 | a digit behind a leading zero is an error |
| JsonErrors.PointWithoutDigits | vendors/json11/json11.cpp:598-601 | so is a point without a digit behind it |
| JsonErrors.ExponentWithoutDigits | vendors/json11/json11.cpp:608-615 | and an exponent without one, signed or not |
| JsonErrors.WordExpected | vendors/json11/json11.cpp:629-638 | the first letter of a word without the rest is reported with the word |
| JsonErrors.TrailingReported | vendors/json11/json11.cpp:732-744 | what follows a value and blanks and does not continue a number is reported |
| JsonDump.EscapeDecodes | vendors/json11/json11.cpp:77-112 | every byte string is what its escaped form stands for, NUL, control characters and U+2028/2029 included |
| JsonDump.DecimalIsExact | vendors/json11/json11.cpp:67-71 | a printed int is a number without leading zeros and of that value |
| JsonDump.ExactIsPossible | vendors/json11/json11.cpp:57-65 | what is assumed about the C library can be met, with doubles that are no integers |
| JsonDump.PrintedIsDerivation | vendors/json11/json11.cpp:53-142 | what is printed is a JSON text as high as the value is nested, and stands for an equal value exactly if all numbers are finite |
| JsonDump.RoundTrip | vendors/json11/json11.cpp:53-142 | parsing what was printed succeeds exactly up to nesting 200, fails for depth otherwise, and gives an equal value exactly if all numbers are finite as well |
| JsonLayout.RoundTripNulls | vendors/json11/json11.cpp:53-142 | parsing what was printed gives the value with null for infinities and NaN, up to nesting 200 |
| JsonLayout.RoundTripInts | vendors/json11/json11.cpp:67-71 | a printed int is read as the same int if it takes at most nine characters, and otherwise as the double of the same value |
| JsonLayout.PrintsWords | vendors/json11/json11.cpp:53-75 | null, true and false are printed as these words, infinities and NaN as null |
| JsonLayout.PrintsInts | vendors/json11/json11.cpp:67-71 | an int is printed as its decimal digits without leading zeros, after a minus sign if it is negative |
| JsonLayout.PrintsStrings | vendors/json11/json11.cpp:77-112 | a string is printed between quotes |
| JsonLayout.PrintsCharacters | vendors/json11/json11.cpp:79-110 | each character is printed as itself, as its short escape, as four lower-case digits if it is another control character, and U+2028 and U+2029 as theirs |
| JsonLayout.PrintsNothingHarmful | vendors/json11/json11.cpp:81-107 | no control character and neither U+2028 nor U+2029 occurs in what is printed for any string |
| JsonLayout.PrintsContainers | vendors/json11/json11.cpp:114-138 | arrays and objects are their elements and members in order, with a comma and a space between them and a colon and a space behind each key |
| JsonPrinter.Output.DumpDouble | vendors/json11/json11.cpp:57-65 | appends the literal, or null for what is not finite |
| JsonPrinter.Output.DumpInt | vendors/json11/json11.cpp:67-71 | appends the decimal literal |
| JsonPrinter.Output.DumpBool | vendors/json11/json11.cpp:73-75 | appends the literal |
| JsonPrinter.Output.DumpString | vendors/json11/json11.cpp:77-112 | the loop appends the escaped string and reads at most one byte beyond the end |
| JsonPrinter.Output.DumpArray | vendors/json11/json11.cpp:114-124 | the loop appends the text of the array's derivation |
| JsonPrinter.Output.DumpObject | vendors/json11/json11.cpp:126-138 | the loop appends the text of the object's derivation |
| JsonPrinter.Output.Dump | vendors/json11/json11.cpp:140-142 | appends the text of the value's derivation |
| JsonStrip.StringsAgree | vendors/json11/json11.cpp:480-567 | blanking comments leaves strings alone, those that look like comments included |
| JsonStrip.ValuesAgree | vendors/json11/json11.cpp:386-449 | COMMENTS mode on a text and STANDARD mode on the blanked text succeed or fail together, with the same value and position |
| JsonStrip.CommentsAreBlanks | vendors/json11/json11.cpp:386-435 | COMMENTS mode accepts a text if and only if STANDARD mode accepts it with its comments replaced by spaces, with the same value |
| JsonStrip.CommentsModeExtends | vendors/json11/json11.cpp:424-435 | what STANDARD mode accepts COMMENTS mode accepts, with the same value |
| JsonStrip.CommentMeans | vendors/json11/json11.cpp:386-418 | a comment is two slashes up to the next line feed or the end, or what the first closing after its opening ends; nothing else is skipped or blanked |
| JsonStrip.CommentFails | vendors/json11/json11.cpp:386-418 | a slash that starts no comment is an error of its kind |
| JsonMulti.ValueIsLocal | vendors/json11/json11.cpp:644-728 | in either mode reading a value depends on nothing after its end |
| JsonMulti.PrefixReplays | vendors/json11/json11.cpp:747-766 | in either mode, reading the input again up to the stop position succeeds with exactly the values before the failure |
| JsonMulti.PrintedListReads | vendors/json11/json11.cpp:747-766 | printed values joined by spaces are read back as the same list to the end, or up to the first nested too deeply, in front of which reading stops with that error |
| JsonStream.ReadsExactlyStreams | vendors/json11/json11.cpp:747-766 | there is no error in STANDARD mode if and only if the input is empty, or optional whitespace and then values of the grammar within the depth limit, each followed by whitespace, of which none is needed but between a number and a digit |
| JsonStream.StreamsAreRead | vendors/json11/json11.cpp:747-766 | and then the result is these values in order |
| JsonStream.FailureLeavesOne | vendors/json11/json11.cpp:747-766 | in either mode there is an error exactly if reading stops before the end, and then the last entry is what the failure left: the value before malformed garbage, null, or an empty string inside a top-level string |
| Primes.PrimeAbove | vendors/googletest/googletest/samples/prime_tables.h:69-75 | there is always a larger prime, so the search ends |
| Primes.OnTheFlyPrimeTable.IsPrime | vendors/googletest/googletest/samples/prime_tables.h:58-67 | true exactly for primes, although only divisors up to the square root are tried |
| Primes.OnTheFlyPrimeTable.GetNextPrime | vendors/googletest/googletest/samples/prime_tables.h:69-75 | the least larger prime from 0 on, -1 below |
| Primes.PreCalculatedPrimeTable.CalculatePrimesUpTo | vendors/googletest/googletest/samples/prime_tables.h:102-114 | the sieve marks exactly the primes |
| Primes.PreCalculatedPrimeTable.IsPrime | vendors/googletest/googletest/samples/prime_tables.h:89-91 | true exactly for the primes in the table |
| Primes.PreCalculatedPrimeTable.GetNextPrime | vendors/googletest/googletest/samples/prime_tables.h:93-99 | the least larger prime, or -1 exactly if the table holds none |
| Primes.HybridPrimeTable.constructor | vendors/googletest/googletest/samples/sample8_unittest.cc:52-57 | a correct sieve of the given size unless it is forced not to have one |
| Primes.HybridPrimeTable.IsPrime | vendors/googletest/googletest/samples/sample8_unittest.cc:62-67 | agrees with trial division on every number |
| Primes.HybridPrimeTable.GetNextPrime | vendors/googletest/googletest/samples/sample8_unittest.cc:69-75 | agrees with trial division from 0 on; at -1 it differs exactly if it has a sieve of at least 2 |
| Explore.PageMeans | cpp/src/explore_controller.cpp:92-96 | the page of any URL is the digit right behind its first page=, and there is none exactly if that occurs nowhere |
| Explore.PageIsFirstDigit | cpp/src/explore_controller.cpp:92-96 | the page read back from a URL is the first digit of its page number, wherever else page= might occur; a negative page is unreadable |
| Explore.PageIsRecovered | cpp/src/explore_controller.cpp:92-96 | it is the page requested if and only if that has one digit |
| Explore.UrlInjective | cpp/src/explore_controller.cpp:140-146 | different pages have different URLs, under which they are stored |
| Explore.UrlMeans | cpp/src/explore_controller.cpp:140-146 | the URL character by character: the list of interesting photos as JSON, the page in decimal, ten photos of it |
| Explore.ExploreController.Request | cpp/src/explore_controller.cpp:29-56 | list, database and exception after a request of any page that is answered or fails |
| Explore.CacheIsShown | cpp/src/explore_controller.cpp:34-42 | before the response the page is shown from the cache, and nothing changes if it is not there |
| Explore.ExploreController.Place | cpp/src/explore_controller.cpp:36-41 | the copy leaves everything outside the page alone; a page the list is too short for, and a negative one, is appended |
| Explore.ExploreController.OnSuccess | cpp/src/explore_controller.cpp:89-118 | the response is placed at the page of its URL and stored under the URL; nothing happens without a page, and an unreadable one throws before anything changes |
| Explore.InPlaceIff | cpp/src/explore_controller.cpp:36-41 | pages that are concatenated as stored are in their places exactly if ten photos come before each for each page before it |
| Explore.StepInPlace | cpp/src/explore_controller.cpp:29-118 | the exact condition, over all pages, responses and cached copies of any size, under which a request leaves pages 1 to n as stored and each in its own place of ten, so all but the last full |
| Explore.FullPagesRun | cpp/src/explore_controller.cpp:27-118 | in every run of resets and requests of pages 1 to 9, at most one beyond the last, cached in full or not at all, and answered with a full page or failed with a cached one, the list is the stored pages, each in its place and full |
| Explore.ThrowsOrStores | cpp/src/explore_controller.cpp:92-117 | the database changes exactly when a request is answered and its page can be read, and then holds the last response |
| Explore.RunInPlace | cpp/src/explore_controller.cpp:27-118 | in every run the pages asked for are at all times shown as stored, each in its own place of ten, if and only if each request meets that condition |
| Explore.StepConcatenates | cpp/src/explore_controller.cpp:29-118 | after a request of the next page, up to page 9, the list is the concatenation of the stored pages of whatever sizes, if and only if no photos were cached for it, or the pages before, the cached copy and the response are full; if it fails, exactly if it was cached |
| Explore.RunConcatenates | cpp/src/explore_controller.cpp:27-118 | in every run of resets and requests of the next page the list is that concatenation at all times, if and only if each request meets that condition |
| Explore.ConcatenationOutlastsPlaces | cpp/src/explore_controller.cpp:36-41 | behind a short page another one is appended: the list is still the concatenation of the stored pages, and the pages are no longer in their places |
| Explore.ShortPageIsDoubled | cpp/src/explore_controller.cpp:34-41 | a short page that is shown is shown twice when it is requested again |
| Explore.CachedShortPageStays | cpp/src/explore_controller.cpp:36-41 | a short cached copy of the next page stays in the list in front of the response |
| Explore.GapIsClosed | cpp/src/explore_controller.cpp:100-105 | the response for a page beyond the next comes right behind what is shown |
| Explore.GapIsOverwritten | cpp/src/explore_controller.cpp:100-105 | and is lost from the list when the page that was left out arrives |
| Explore.FarPageGoesToFirstDigit | cpp/src/explore_controller.cpp:92-105 | the response to any page from 10 on is placed at the page of the first digit |
| Explore.FarPageReplaces | cpp/src/explore_controller.cpp:92-105 | if the page is not cached, it overwrites photos of that page and the list does not grow |

## Left out

- User interface code in Swift and Kotlin, and the other controllers: field copying and wiring with no property beyond one branch.
- curl, LMDB, JNI and Objective-C: foreign code. The database is a map, a request ends with a response or a failure, and strings cross the JNI boundary unchanged. The cursor loop in `request_db` becomes a lookup.
- Reading photos out of a response: a parameter of the explore model, assumed to give at most ten photos, as the request asks for. More are well defined where they are appended or overwrite photos of the next page, and undefined where they go beyond the end of the list; the model covers neither. Observer callbacks are not modelled.
- Explore.ExploreController.Request: page 0 with photos writes before the start of the list, which is undefined behaviour; the model covers page 0 without photos, and every other page of eight bits.
- `%.17g` and general `strtod`: a parameter with the two assumptions named above. The sign of a zero is not modelled, nor a locale with another decimal point.
- Texts of errors and explanations: errors keep their kind and the offending byte. Which error punctuation inside arrays and objects gives is said by `JsonParse` only.
- Memory limits and integer overflow in the prime tables and in positions of strings.
- `has_shape`, accessors and conversions of json11: one-line functions.
- `Handle::assign`, handles without an object and handles created outside the cache: a handle owns its object from creation to destruction.
- The hash of the proxy cache: keys are equal when tag and address are, and the allocator returns the address of the object it was given.
- Custom cardinalities, actions, `.After` clauses, default actions and the verification of expectations at the end of a mock's life. Expectations have a lower and an upper bound; what the matchers accept is an input.
- Google Test's own internals, flowcpp, gyp and build scripts.
- Expectations.Play: claims the order over whole runs only after expectations that accept calls; `HandleCall` has the exact condition after each single call.
