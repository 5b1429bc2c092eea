# Verification of the bas core engines

A Dafny model of the parts of the library that carry state and invariants, with proofs
about all inputs and all runs. `dafny verify dfyconfig.toml` checks everything.

## What is modelled

What the code updates in place is a Dafny class with the same fields: the readers, the document, the
registry, the container manager, the policy store, the session and the URI. Their loops, and those
that compute a result by updating variables (tokenizing, quoting, parsing, scoring, resolving,
flushing, the codecs), are methods with loops over the same branches, each proved against a
specification function or a stated property; the lemmas prove what those functions promise. Entities
that are only compared and copied (realms, identities, permissions, grants) are datatypes, and the
JSON forms of entries, lists and grants, the cutting of resource paths and the removal idiom of the
standard library are functions.

- **Backward reader** (`Lines`, `InputStreams`, `ReversedReader`). The reader pulls blocks of
  arbitrary length from the end of a source into a doubly linked list. A ghost pair (`contents`,
  `consumed`) is what the whole list means; every operation is specified on that pair only. Reading
  lines from the end and reversing the list is reading lines from the front, whatever the blocks.
- **Look-ahead buffer** (`LookAhead`). The window `buffer[pos..limit]` always shows the source at
  `position`, while the buffer compacts or grows; the source may deliver short bulk reads.
- **JSON pointers** (`Pointers`, `JsonTrees`, `JsonPaths`, `Documents`, `Registry`). `JsonPaths`
  has the pure lens (`Get`, `Put`, `Ensure`, `Remove`) and its laws; `Documents` walks and mutates a
  document the way `locate_impl` and `Location` do, with addresses in place of raw pointers, and is
  proved to compute the lens.
- **Write-back cache** (`ContainerCache`). A three-map machine (store, cache, dirty marks) that
  refines a reference without marks, over whole runs; fragments are created and erased inside the
  cached value, as the code does.
- **Permission language and decisions** (`Permissions`, `Globs`, `Identities`, `Decisions`,
  `PolicyStores`, `DefaultPolicyStores`, `Persistence`, `Authorization`, `Sessions`). Printer and
  parser, glob matching, the two decision paths, JSON persistence of a policy store, and the session
  machine.
- **Codecs** (`Utf8`, `Base64`, `Uris`). UTF-8 (section 3 of RFC 3629), base64 (section 4 of
  RFC 4648) and URIs (sections 3 and 5.3 of RFC 3986).

Long loops are cut into a helper method per turn, and inductions are written out rather than left
to the verifier (`{:induction false}`). `Sequences` holds the small shared vocabulary. A byte is an
integer below 256, text is a sequence of characters, a JSON object is a map from member names to
values, "now" is a parameter.

## Where the code and its description part ways

Each of these is stated with its exact condition, and the failing side has a concrete input where
it is not plain from the condition.

- A block size of 0 makes the backward reader see empty content; `reject` on empty content always
  refuses, even for 0 bytes (`ReversedReader.Reader.Reject`).
- `prefetch` reports success although the window is shorter than asked exactly when a limited buffer
  has room for one more byte only and the source has it (`LookAhead.LookAheadStream.Prefetch`, and
  `LookAhead.ShortPrefetch` for one stream); no reader relies on it for more than one byte.
- A pointer with an empty last token loses it (`Pointers.TokenizePrint`).
- Erasing an array item makes the erased path lead to the item that moved up, and moves up all
  behind it (`JsonPaths.GetRemoved`, `JsonPaths.RemoveItemShifts`); growing an array leaves null
  items behind (`JsonPaths.PutFrame`).
- A location whose node was not found still says where the search stopped, and setting or erasing
  through it acts there: in an object above the path asked for, in an array on another item
  (`Documents.MissedIs`, with inputs in `Documents.WrongItem` and `Documents.InsertedAbove`). It does
  what a store at the path would only for the last token in an object, or where both fail
  (`Documents.MissedSetExactly`).
- `setOption` without a value on a missing path first creates it, so it can leave containers and
  padding behind (`Registry.EraseMissing`, `Registry.UnsetOnNew`).
- `cacheRemoveContainer` drops the cached copy and leaves the store alone: callers still see the
  container exactly when the store has it (`ContainerCache.DiscardShowsStore`). Saving a fragment into
  a container that is no object first overwrites that container in the store by an empty object
  (`ContainerCache.PutFragmentStores`).
- A scalar saved under the fragment `/` replaces the container and is then not shown under that
  fragment, only as the container (`ContainerCache.SavedFragmentLoads`).
- `evaluate` counts expired and revoked identities, `checkPermission` does not. On identities with
  pairwise unequal references, which is what a session holds, they agree for every store and
  permission exactly when each identity is active or has an active twin: one of the same kind and
  name, where both realms have a description or an image only (`Authorization.PathsAgreeExactly`,
  with the stores that tell the paths apart in `Authorization.PathsDisagree` and
  `Authorization.RouterDisagrees`). Where every reference equals itself, all must be active
  (`Authorization.SelfEqualAgreeExactly`).
- A realm that has only a description or an image does not equal itself, and neither realm equality
  is transitive; through which realms they are is exact (`Identities.SameReflexive`,
  `Identities.ScopedTransitiveThrough`, `Identities.SameTransitiveThrough`). So activating a set with
  several realms can leave an old login in the scope of one of them (`Sessions.ReplacesScopeExactly`,
  `Sessions.TwoLoginsExactly`, `Sessions.StaleLoginStays`); a password login has one realm only and is
  safe (`Sessions.LoginReplacesSession`).
- The router files stores by a key text: realms that are not equal can share one, and equal realms can
  be filed apart (`Identities.KeysAgainstEquality`; exact for kinds without a colon in
  `Identities.SameKeyExactly`).
- Saving a policy store drops lists and bindings with an empty id (`Persistence.RoundTripExactly`).
- `encodeCodePoint` accepts values up to 2^31 - 1, but only those below 2^21 decode again
  (`Utf8.DecodeEncodeExactly`). The decoder accepts overlong forms and stops silently at bytes that
  start nothing (`Utf8.EncodeDecodeExactly`, `Utf8.OverlongDecodes`).
- Parsing a URI drops two slashes that follow a scheme without an authority
  (`Uris.LosslessExactly`), and then composing and parsing again can find an authority that was not
  there (`Uris.ReparseExactly`, with inputs in `Uris.SlashesLostOn`). Directory and base do not tell
  `/x` from `//x` (`Uris.DirBaseExactly`, `Uris.DirBaseAmbiguous`).

## Model

| member | source | states |
|---|---|---|
| Lines.BackwardIsForwardReversed | src/bas/io/ReversedReader.cpp:170-204 | for every byte string, the lines cut off from the end, reversed, are the lines that repeated forward reading gives |
| Lines.ForwardLinesUnique | src/bas/io/InputStream.cpp:40-49 | a list of lines is the forward split exactly when it concatenates to the content, each line is nonempty with no inner newline, and only the last may lack its newline |
| Lines.ReversedIsLastLine | src/bas/io/ReversedReader.cpp:170-192 | bytes collected backward up to the newline before them are, reversed, the last line |
| Lines.LastLineCut | src/bas/io/ReversedReader.cpp:176-186 | what remains in front of the last line is empty or ends in a newline |
| Lines.ForwardAppend | src/bas/io/InputStream.cpp:40-49 | one more line behind terminated text adds exactly that line to the forward split |
| InputStreams.InputStream.ReadInto | src/bas/io/InputStream.cpp:6-16 | a bulk read delivers the next bytes in place and touches nothing else; 0 only at end of file |
| InputStreams.InputStream.Skip | src/bas/io/InputStream.cpp:60-68 | a skip passes over as many bytes as it reports, all that were asked for if the source delivers greedily |
| InputStreams.InputStream.ReadRawLine | src/bas/io/InputStream.cpp:40-49 | returns the first line of what remains and consumes exactly it |
| ReversedReader.Reader.constructor | src/bas/io/ReversedReader.cpp:12-20 | a new reader stands at the end of the whole content with nothing consumed |
| ReversedReader.Reader.FetchBlock | src/bas/io/ReversedReader.cpp:52-69 | a fetched block holds what the source held last; no block only when nothing is left |
| ReversedReader.Reader.Next | src/bas/io/ReversedReader.cpp:32-50 | the linked block or a new one hung behind the last; blocks already listed keep their place |
| ReversedReader.Reader.Advance | src/bas/io/ReversedReader.cpp:77-82 | moving to the next block consumes nothing |
| ReversedReader.Reader.Read | src/bas/io/ReversedReader.cpp:72-86 | the byte before the cursor, consuming it; -1 exactly when all is consumed |
| ReversedReader.Reader.ReadInto | src/bas/io/ReversedReader.cpp:89-111 | delivers exactly min(len, remaining) bytes in file order ending at the given offset, across blocks |
| ReversedReader.Reader.Rewind | src/bas/io/ReversedReader.cpp:117-151 | finds the position n bytes back, also from end of file, exactly when n bytes have been consumed |
| ReversedReader.Reader.Reject | src/bas/io/ReversedReader.cpp:117-152 | on nonempty content succeeds exactly when n is at most the bytes consumed, and changes nothing when it fails |
| ReversedReader.Reader.LookAheadInto | src/bas/io/ReversedReader.cpp:155-159 | shows what a bulk read would deliver and consumes nothing |
| ReversedReader.Reader.LookAhead | src/bas/io/ReversedReader.cpp:162-167 | shows the next byte and consumes nothing |
| ReversedReader.Reader.ReadRawLine | src/bas/io/ReversedReader.cpp:170-192 | returns the last line of what remains and leaves the text in front of it |
| ReversedReader.Reader.ReadRawLines | src/bas/io/ReversedReader.cpp:194-204 | the lines returned and those still ahead make up the backward split; -1 reads them all, a limit is met exactly |
| ReversedReader.Reader.ReadLastLines | src/bas/volume/Volume.cpp:769-775 | the tail of a file: the last lines of its forward split in file order, 1000 for a negative limit |
| ReversedReader.FullReadExactly | src/bas/volume/Volume.cpp:754-765 | the reader takes the end of what is left of the file, whatever the bytes, exactly when the callback's read was full |
| ReversedReader.ShortRead | src/bas/volume/Volume.cpp:754-765 | one short read after which bytes that are not in the file are taken |
| ReversedReader.JoinedSplit | src/bas/io/ReversedReader.cpp:32-50 | the text of a block list splits at any block into what is behind it and what is in front |
| LookAhead.LeastPower | src/bas/io/LAInputStream.cpp:62-67 | doubling from one stops at the least power of two that suffices |
| LookAhead.PowersExactly | src/bas/io/LAInputStream.cpp:62-67 | the powers of two are the numbers that doubling one reaches |
| LookAhead.AlignToNextPowerOfTwo | src/bas/io/LAInputStream.cpp:62-67 | returns the least power of two at or above its argument |
| LookAhead.LookAheadStream.constructor | src/bas/io/LAInputStream.cpp:10-19 | starts with an empty window at the source's position; capacity 0 means unlimited |
| LookAhead.LookAheadStream.Compact | src/bas/io/LAInputStream.cpp:21-30 | moves the unread bytes to the front without changing what the window shows; nothing in unlimited mode |
| LookAhead.LookAheadStream.ExpandCapacity | src/bas/io/LAInputStream.cpp:69-77 | grows an unlimited buffer to the least power of two that suffices and never otherwise |
| LookAhead.LookAheadStream.Prefetch | src/bas/io/LAInputStream.cpp:32-60 | the window grows by the next bytes of the source, to min(len, room, remaining) over a greedy source, and is empty only at end of file; success is reported for a shorter window exactly when a limited buffer has room for one byte only |
| LookAhead.ShortPrefetch | src/bas/io/LAInputStream.cpp:45-54 | one such stream: capacity 2, one byte unread, three asked for |
| LookAhead.LookAheadStream.Read | src/bas/io/LAInputStream.cpp:79-85 | the byte at the logical position; the byte just read can always be rejected |
| LookAhead.LookAheadStream.ReadInto | src/bas/io/LAInputStream.cpp:87-103 | delivers exactly min(len, remaining) bytes however small the buffer and however short the source's reads; says what can be rejected afterwards |
| LookAhead.LookAheadStream.LookAhead | src/bas/io/LAInputStream.cpp:105-109 | shows the byte at the logical position without consuming it |
| LookAhead.LookAheadStream.LookAheadInto | src/bas/io/LAInputStream.cpp:111-120 | shows the next bytes without consuming them, as many as the buffer has room for; what could be rejected is lost exactly when a limited buffer has to make room |
| LookAhead.LookAheadStream.Skip | src/bas/io/LAInputStream.cpp:207-236 | moves by what it reports; only a skip past the window gives up what could be rejected |
| LookAhead.LookAheadStream.Reject | src/bas/io/LAInputStream.cpp:238-244 | succeeds exactly back to the window's first byte and changes nothing when it fails |
| Pointers.UnescapeInPlace | src/bas/script/json.cpp:177-187 | the in-place replace loop equals a single left-to-right unescape pass |
| Pointers.Tokenize | src/bas/script/json.cpp:157-189 | cutting and unescaping loops compute the tokens of a path |
| Pointers.TokenizePrint | src/bas/script/json.cpp:157-189 | tokenizing a printed pointer gives the tokens back exactly when there are none or the last is nonempty (section 4 of RFC 6901) |
| Pointers.UnescapeEscape | src/bas/script/json.cpp:177-187 | unescaping inverts escaping of tilde and slash |
| Pointers.RootHasNoTokens | src/bas/script/json.cpp:159-160 | a path has no tokens exactly when it is empty or a lone separator |
| Pointers.SplitExactly | src/bas/script/json.cpp:165-173 | the tokens of a text are the ones that spell it: joined with separators, and an empty one behind a final separator |
| Pointers.NamesPath | src/bas/script/json.cpp:157-190 | names joined with separators, with or without one in front, are the path of those names |
| Pointers.EscapesRead | src/bas/script/json.cpp:175-187 | a pair is read once, ~1 as slash and ~0 as tilde |
| JsonTrees.DecimalInjective | src/bas/script/json.cpp:226-231 | digits without leading zeros are determined by their value |
| JsonTrees.IndexInjective | src/bas/script/json.cpp:226-231 | two different tokens never denote the same array index |
| JsonTrees.IndexExactly | src/bas/script/json.cpp:226-231 | a token denotes an index exactly when it is the decimal text of that number and the number is in range |
| JsonTrees.FromCharsExactly | src/bas/script/json.cpp:226 | the number in front of the first character that is no digit, leading zeros included; nothing without a digit or out of range |
| JsonTrees.StoreFrame | src/bas/script/json.hpp:60-87 | storing a child leaves every child under another token alone |
| JsonTrees.SlotFrame | src/bas/script/json.cpp:215-245 | making a child changes no other child and adds nothing but null padding to a grown array |
| JsonPaths.GetAppend | src/bas/script/json.cpp:206-247 | following a path is following its front and then its rest |
| JsonPaths.ChildExactly | src/bas/script/json.cpp:209-244 | one more token leads to the item whose position it is the decimal text of, to the member of that name, and from a scalar nowhere |
| JsonPaths.PutGet | src/bas/script/json.hpp:60-99 | what was stored at a path is what the path then leads to |
| JsonPaths.PutPut | src/bas/script/json.hpp:60-99 | a second store overwrites the first |
| JsonPaths.GetPut | src/bas/script/json.hpp:60-99 | storing what is there already changes nothing, nor does creating a path that exists |
| JsonPaths.EnsurePut | src/bas/script/json.cpp:206-247 | creating a path succeeds exactly when storing does, and storing after creating is storing |
| JsonPaths.FreshNeverFails | src/bas/script/json.cpp:216-245 | below a node that was just created no later token can fail |
| JsonPaths.EnsureFailsIffBlocked | src/bas/script/json.cpp:224-231 | creation fails exactly at an existing array reached with a token that is no array index |
| JsonPaths.PutFrame | src/bas/script/json.cpp:206-247 | every path that is neither prefix nor extension of the one written leads where it led, padding of a grown array aside |
| JsonPaths.EnsureIsPut | src/bas/script/json.cpp:206-247 | creating a path is storing, at its end, what ends up there |
| JsonPaths.EnsureStep | src/bas/script/json.cpp:206-247 | creating a path token by token gives what creating it at once gives |
| JsonPaths.CreatedIn | src/bas/script/json.cpp:213-251 | creating a missing path adds an empty object under the last token, to the object there or to a new one, or null items to an array up to the index |
| JsonPaths.RemoveIsPut | src/bas/script/json.hpp:101-128 | erasing rewrites the parent and nothing else |
| JsonPaths.GetRemoved | src/bas/script/json.hpp:105-128 | an erased path leads nowhere, or to the array item that moved up |
| JsonPaths.RemoveFrame | src/bas/script/json.hpp:101-128 | erasing leaves every path alone that parts from it above its last token |
| JsonPaths.RemoveMemberFrame | src/bas/script/json.hpp:105-116 | erasing an object member leaves every path alone that does not run through it |
| JsonPaths.RemoveItemShifts | src/bas/script/json.hpp:118-128 | erasing an array item leaves paths through earlier items alone and makes those from its index on read what the next index held |
| Documents.AddressLaws | src/bas/script/json.cpp:200-249 | the node a path leads to is reached by its address, and writing through the address is storing at the path |
| Documents.AddressKept | src/bas/script/json.cpp:200-249 | storing under an existing path does not move it |
| Documents.SetIsPut | src/bas/script/json.hpp:60-99 | setting through a location found at a path is storing at that path |
| Documents.EraseIsRemove | src/bas/script/json.hpp:101-143 | erasing through a location found at a path is removing that path |
| Documents.MissedIs | src/bas/script/json.hpp:60-143 | through a location without a node, set inserts where the search stopped in an object and overwrites the item at the index left behind in an array, exactly when the token is no index and that item exists; erase removes that item; all else fails |
| Documents.MissedSetExactly | src/bas/script/json.hpp:60-99 | such a set does what storing at the path would exactly for the last token in an object, or where both fail at an array |
| Documents.WrongItem | src/bas/script/json.cpp:226-231 | an array and a token that is no index: another item is overwritten or removed |
| Documents.InsertedAbove | src/bas/script/json.hpp:61-74 | an empty object and a path of two tokens: the value is inserted at the first |
| Documents.ProgressEnds | src/bas/script/json.cpp:206-249 | where the token loop ends, the document is the created one or, if nothing was found, the untouched one |
| Documents.Document.Descend | src/bas/script/json.cpp:209-246 | one token on one node: finds, creates or fails as the branches for objects, arrays and scalars say |
| Documents.Document.Locate | src/bas/script/json.cpp:192-255 | all-or-nothing creation, and the node found is the one the path leads to: it is found exactly when the path exists |
| Documents.Document.Set | src/bas/script/json.hpp:60-99 | stores at every path the location denotes and returns what was there; without a node it inserts where the search stopped in an object, overwrites the item whose index a token that is no index left behind, and otherwise throws without change |
| Documents.Document.Erase | src/bas/script/json.hpp:101-143 | removes the path the location denotes and returns what was there, a root becoming null; without a node it removes the array item whose index a token that is no index left behind, and otherwise changes nothing |
| Registry.JsonRegistry.GetJson | src/bas/reg/JsonRegistry.cpp:200-210 | reads what the path, with dots as slashes, leads to, and changes nothing |
| Registry.DottedNames | src/bas/reg/JsonRegistry.cpp:200-206 | names joined with dots are the path of those names |
| Registry.DottedItem | src/bas/reg/JsonRegistry.cpp:200-210 | a dotted path that ends in a number leads to the array item at that position |
| Registry.JsonRegistry.SetJson | src/bas/reg/JsonRegistry.cpp:212-232 | succeeds exactly when no array blocks the path; then the path leads to the value and other paths are untouched; otherwise nothing changes in an object document |
| Registry.JsonRegistry.SetOption | src/bas/reg/JsonRegistry.cpp:164-181 | stores a value, or creates and erases the path; nothing on an empty or blocked path |
| Registry.JsonRegistry.DelTree | src/bas/reg/JsonRegistry.cpp:183-192 | erases what the path leads to, unless that is nothing or null |
| Registry.PutWritesOnly | src/bas/reg/JsonRegistry.cpp:212-232 | a store reads back, and every path apart from it is untouched |
| Registry.EraseMissing | src/bas/reg/JsonRegistry.cpp:164-181 | unsetting a missing path undoes itself exactly when its container was there and is an object, or an array that ended right there |
| Registry.UnsetLeavesContainer | src/bas/reg/JsonRegistry.cpp:164-181 | unsetting a.b in an empty document leaves the object a behind |
| Registry.UnsetOnNew | src/bas/reg/JsonRegistry.cpp:164-181 | the same on a new registry: after unsetting a.b it holds an empty a |
| ContainerCache.StepRefines | src/bas/reg/Sub.cpp:85-209 | every operation keeps clean entries equal to the store, and callers cannot tell it from the flagless reference |
| ContainerCache.RunRefines | src/bas/reg/Sub.cpp:85-209 | every reachable state is coherent and a whole run answers as the reference does |
| ContainerCache.LoadRefines | src/bas/reg/Sub.cpp:85-100 | a load changes neither the store nor what callers see |
| ContainerCache.PutFragmentRefines | src/bas/reg/Sub.cpp:133-160 | a fragment save acts on what callers see; a failed one keeps clean entries equal to the store |
| ContainerCache.PutFragmentStores | src/bas/reg/Sub.cpp:133-159 | a fragment save writes the store exactly where the container was no object, and a failed one changes neither the store nor what callers see |
| ContainerCache.DiscardShowsStore | src/bas/reg/Sub.cpp:110-115 | after a removal callers see the store's copy, so the container is gone exactly when the store has none, and nothing changes exactly when the two agreed |
| ContainerCache.EraseFragmentRefines | src/bas/reg/Sub.cpp:162-192 | a fragment removal acts on what callers see |
| ContainerCache.PutFragmentFrame | src/bas/reg/Sub.cpp:153-159 | a fragment save into an object container changes that fragment only, and no other container |
| ContainerCache.FlushRefines | src/bas/reg/Sub.cpp:199-209 | writing only marked containers makes the store equal to all that callers see, and no mark is left |
| ContainerCache.FlushedRun | src/bas/reg/Sub.cpp:199-209 | after any run from a fresh cache and a flush, the store agrees with every cached container and nothing is dirty |
| ContainerCache.ContainerManager.CacheLoadContainer | src/bas/reg/Sub.cpp:85-100 | keeps coherence, answers what callers already saw and changes nothing they see |
| ContainerCache.ContainerManager.CacheSaveContainer | src/bas/reg/Sub.cpp:102-108 | keeps coherence; callers and store both have the value, with or without the cache, and all other containers are as before |
| ContainerCache.ContainerManager.CacheRemoveContainer | src/bas/reg/Sub.cpp:110-115 | keeps coherence; callers see the store's copy, and see no change exactly when a flush would have left that copy as it is |
| ContainerCache.ContainerManager.CacheLoadFragment | src/bas/reg/Sub.cpp:117-131 | keeps coherence and replies the fragment of what callers see, of which the next rows say what it is |
| ContainerCache.SavedFragmentLoads | src/bas/reg/Sub.cpp:117-160 | after a successful fragment save, and any operations that spare the container, a load of the fragment replies exactly the saved value; only a scalar saved under a lone slash is not shown |
| ContainerCache.OtherFragmentLoads | src/bas/reg/Sub.cpp:117-160 | a load of a fragment that neither contains the saved one nor lies in it replies as before, padding aside; a container that was no object has lost what it was |
| ContainerCache.OtherContainersLoad | src/bas/reg/Sub.cpp:117-160 | a fragment save changes no reply about another container |
| ContainerCache.NamedFragmentLoads | src/bas/reg/Sub.cpp:117-131 | a fragment made of names replies what the names lead to, an empty one the container |
| ContainerCache.ItemFragmentLoads | src/bas/reg/Sub.cpp:117-131 | a number at the end of a fragment selects the array item at that position |
| ContainerCache.RemovedFragmentLoads | src/bas/reg/Sub.cpp:162-200 | a removed fragment loads as nothing, or as the array item that moved up |
| ContainerCache.ContainerManager.CacheSaveFragment | src/bas/reg/Sub.cpp:133-160 | keeps coherence and acts on what callers see as the reference does, although nodes are created inside the cached value before success is known |
| ContainerCache.ContainerManager.LocateIn | src/bas/reg/Sub.cpp:153 | following a fragment in place changes the cached container only by what could be created as a whole |
| ContainerCache.ContainerManager.AssignIn | src/bas/reg/Sub.cpp:153-159 | creating and assigning in place is storing at the path, and a refusal leaves the cached container as it was, because creation is all or nothing |
| ContainerCache.ContainerManager.CacheRemoveFragment | src/bas/reg/Sub.cpp:162-192 | keeps coherence and acts on what callers see as the reference does |
| ContainerCache.ContainerManager.EraseIn | src/bas/reg/Sub.cpp:173-191 | erasing in place removes the path, and refuses exactly for the root, for nothing and for null |
| ContainerCache.ContainerManager.FlushCachedContainers | src/bas/reg/Sub.cpp:199-209 | the loop over the marks, in any order, keeps coherence and brings the store to what callers see, which does not change |
| ContainerCache.ContainerManager.CacheClear | src/bas/reg/Sub.cpp:194-197 | keeps coherence; callers see the store, and see no change exactly when a flush would have written nothing new |
| Permissions.ParseToString | src/bas/security/Permission.cpp:170-247 | parsing the text of a permission gives it back for every action and resource string |
| Permissions.ValueRoundTrip | src/bas/security/Permission.cpp:29-94 | a quoted or plain value is read back and parsing stops right behind it |
| Permissions.QuoteValue | src/bas/security/Permission.cpp:41-56 | the loop writes the quoted form that the round trip is about |
| Permissions.Print | src/bas/security/Permission.cpp:170-187 | appending the fields gives the text form that the round trip is about |
| Permissions.ParseValue | src/bas/security/Permission.cpp:59-94 | reads a quoted or plain value at an index, never moving back or past the end |
| Permissions.ParseSegment | src/bas/security/Permission.cpp:223-245 | each segment advances by at least one character, so parsing ends on every input |
| Permissions.Parse | src/bas/security/Permission.cpp:189-247 | index loops compute the parser that the round trip and the rows on other texts are about |
| Permissions.ShorthandParts | src/bas/security/Permission.cpp:203-209 | an action without colon and equals sign, a colon and a resource parse to exactly that action and resource |
| Permissions.ShorthandAction | src/bas/security/Permission.cpp:203-213 | without a colon, or with one in front, the whole text is the action |
| Permissions.SpaceAround | src/bas/security/Permission.cpp:191-200 | white space around a text makes no difference, and white space alone is everything |
| Permissions.KeyedTextParsed | src/bas/security/Permission.cpp:215-246 | each field gets the value of the last segment with its name, whatever other names and malformed segments there are, with white space around every part and quotes of either kind |
| Permissions.PlainText | src/bas/security/Permission.cpp:170-187 | the text of a permission without special characters, action first |
| Permissions.QuotedExactly | src/bas/security/Permission.cpp:29-57 | quotes are put around a value exactly when it holds a semicolon, an equals sign, a quote or white space |
| Globs.MatchTokens | src/bas/security/Permission.cpp:96-116 | the backtracking matcher on indices decides whether the pattern matches |
| Globs.MatchesAppend | src/bas/security/Permission.cpp:96-116 | p + q matches a list exactly when the list splits into a part that p matches and a part that q matches |
| Globs.WidenMatches | src/bas/security/Permission.cpp:96-116 | replacing a literal by `*` or `*` by `**` never loses a match and strictly lowers the score |
| Globs.LiteralMatchesItself | src/bas/security/Permission.cpp:96-116 | a pattern without wildcards matches itself and nothing else |
| Globs.OneToken | src/bas/security/Permission.cpp:96-116 | one * matches any one token, ** any list, anything else itself |
| Globs.CoversExactly | src/bas/security/Permission.cpp:118-166 | what an entry covers, in terms of the texts and of token lists that spell them |
| Globs.SplitPathExactly | src/bas/security/Permission.cpp:144-162 | the tokens of a resource are the ones that spell it, with at most one slash in front and any number behind |
| Globs.PlainResource | src/bas/security/Permission.cpp:128-165 | a resource without slashes and stars covers itself and everything, and nothing else |
| Globs.ExtensionResource | src/bas/security/Permission.cpp:136-140 | an extension covers exactly what ends in it, besides everything |
| Globs.DottedAction | src/bas/security/Permission.cpp:118-126 | a dotted action covers a dotted action exactly when the token lists match |
| Globs.PathResource | src/bas/security/Permission.cpp:142-163 | a path covers a path exactly when the token lists match |
| Globs.SpecificityCounts | src/bas/security/Permission.cpp:255-273 | twenty for a resource that is not everything, ten for each literal of the action, one for each * |
| Globs.SplitPermissionTokens | src/bas/security/Permission.cpp:9-25 | the loop cuts at dots, with nothing after a final one |
| Globs.ComputeSpecificity | src/bas/security/Permission.cpp:255-273 | the loop computes the score that widening lowers |
| Identities.SameIsScopedOrEmpty | src/bas/security/Realm.cpp:37-70 | the two realm equalities are symmetric and differ in empty realms only |
| Identities.SameReflexive | src/bas/security/Realm.cpp:37-70 | a realm equals itself exactly when it has a key or is empty |
| Identities.ScopedTransitiveThrough | src/bas/security/Realm.cpp:56-70 | scoped equality carries over through a realm exactly when it has no key |
| Identities.SameTransitiveThrough | src/bas/security/Realm.cpp:37-54 | reference equality carries over through a realm exactly when it has no key and is not empty |
| Identities.EqualsInRealm | src/bas/security/Identity.hpp:21-26 | in one realm with a key, references are equal exactly when they are identical |
| Identities.ActiveUntilExpiry | src/bas/security/Identity.hpp:52-58 | an active identity was active before, and stops being so at its expiry |
| Identities.SourcesRanked | src/bas/security/Types.cpp:58-75 | direct and login identities weigh most, then derived, automatic and system ones, an unknown source nothing |
| Identities.SameKeyExactly | src/bas/security/Realm.cpp:72-86 | realms whose kinds hold no colon are filed under one key exactly when both parts of the key are the same |
| Identities.KeysAgainstEquality | src/bas/security/Realm.cpp:72-86 | unequal realms can share a key, and equal ones can be filed apart |
| Decisions.ResolveEntries | src/bas/security/AccessDecisionResolver.cpp:11-65 | allows exactly when the most specific matching entries hold an allow and no deny; the reason says which case it was |
| Decisions.ResolveMatches | src/bas/security/AccessDecisionResolver.cpp:67-109 | gives the same verdict as the other resolver, undecided included |
| Decisions.VerdictByTop | src/bas/security/AccessDecisionResolver.cpp:34-50 | a verdict depends on the set of most specific entries only |
| Decisions.VerdictPermutes | src/bas/security/AccessDecisionResolver.cpp:34-50 | reordering or repeating entries never changes a verdict |
| Decisions.VerdictIgnoresLower | src/bas/security/AccessDecisionResolver.cpp:34-44 | entries below the highest specificity can come and go |
| Decisions.EntriesDecide | src/bas/security/AccessDecisionResolver.cpp:23-64 | a list denies exactly when a most specific covering entry denies, and allows exactly when one allows and none denies |
| Decisions.DenyWins | src/bas/security/AccessDecisionResolver.cpp:45-56 | one deny among the most specific covering entries denies, whatever else the list holds |
| Decisions.LowerEntriesIgnored | src/bas/security/AccessDecisionResolver.cpp:34-44 | covering entries less specific than one that stays can be added or removed anywhere |
| PolicyStores.AddKeepsUnique | src/bas/security/PolicyStore.cpp:38-41 | adding a list keeps list ids unique |
| PolicyStores.ReplaceKeepsUnique | src/bas/security/PolicyStore.cpp:43-51 | updating a list keeps list ids unique |
| PolicyStores.RemovedFinds | src/bas/security/PolicyStore.cpp:53-62 | a removed list is not found and nothing is bound to it; everything else is untouched |
| PolicyStores.AddedFinds | src/bas/security/PolicyStore.cpp:38-41 | an added list is found under its id with nothing bound to it; everything else is untouched |
| PolicyStores.ReplacedFinds | src/bas/security/PolicyStore.cpp:43-51 | an updated list is found under its id; other lists are untouched |
| PolicyStores.SameExactly | src/bas/security/Binding.hpp:17-44 | in one realm with a key, grants and bindings are equal exactly when they are identical |
| PolicyStores.SameInAnyRealm | src/bas/security/Binding.hpp:17-44 | one for an identity without a realm equals one for that identity in any realm |
| PolicyStores.EntriesInOrder | src/bas/security/PolicyStore.cpp:98-111 | the entries come in the order of the grants and of the bindings |
| DefaultPolicyStores.DefaultPolicyStore.GetAcl | src/bas/security/PolicyStore.cpp:20-27 | the list with the id, if there is one |
| DefaultPolicyStores.DefaultPolicyStore.AddAcl | src/bas/security/PolicyStore.cpp:38-41 | removes the old list and its bindings, appends the new one; ids stay unique |
| DefaultPolicyStores.DefaultPolicyStore.UpdateAcl | src/bas/security/PolicyStore.cpp:43-51 | replaces in place, keeping bindings, or appends; ids stay unique |
| DefaultPolicyStores.DefaultPolicyStore.RemoveAcl | src/bas/security/PolicyStore.cpp:53-62 | drops the list and every binding to it |
| DefaultPolicyStores.DefaultPolicyStore.RemoveGrant | src/bas/security/PolicyStore.cpp:76-78 | what stays is, in order and as often, exactly the grants that do not equal the given one up to realm equality; nothing else changes |
| Sequences.FilterSelects | src/bas/security/PolicyStore.cpp:53-62 | the erase and remove idiom keeps exactly the elements that satisfy the condition, at increasing positions |
| DefaultPolicyStores.DefaultPolicyStore.RemoveBinding | src/bas/security/PolicyStore.cpp:94-96 | what stays is, in order and as often, exactly the bindings that do not equal the given one up to realm equality; nothing else changes |
| DefaultPolicyStores.DefaultPolicyStore.EffectiveEntriesOf | src/bas/security/PolicyStore.cpp:98-111 | the entries of the identity's grants, then of its bound lists |
| DefaultPolicyStores.DefaultPolicyStore.JsonOut | src/bas/security/PolicyStore.cpp:185-216 | adds exactly the saved members to an object |
| DefaultPolicyStores.DefaultPolicyStore.JsonIn | src/bas/security/PolicyStore.cpp:119-183 | replaces the contents by what the object describes, old member names and malformed items included; ids stay unique |
| Persistence.RoundTripExactly | src/bas/security/PolicyStore.cpp:119-216 | loading a saved store gives it back, in order and field by field, exactly when no list and no binding has an empty id |
| Persistence.LoadSaved | src/bas/security/PolicyStore.cpp:119-216 | loading a saved store gives back everything that has an id, in order |
| Persistence.AclsRoundTrip | src/bas/security/PolicyStore.cpp:122-133 | the lists come back in order, which rests on their ids being unique |
| Persistence.BindingsRoundTrip | src/bas/security/PolicyStore.cpp:145-158 | the bindings come back in order |
| Persistence.GrantsRoundTrip | src/bas/security/PolicyStore.cpp:160-171 | the grants come back in order |
| Persistence.EntryRoundTrip | src/bas/security/ACList.cpp:13-21 | an entry comes back, which rests on the permission round trip |
| Persistence.AclRoundTrip | src/bas/security/ACList.cpp:49-78 | a list comes back with its entries in order |
| Persistence.GrantRoundTrip | src/bas/security/Binding.cpp:7-32 | a grant comes back |
| Persistence.BindingRoundTrip | src/bas/security/Binding.cpp:34-51 | a binding comes back |
| Persistence.RefRoundTrip | src/bas/security/Identity.cpp:21-39 | an identity reference comes back, an empty realm being left out |
| Persistence.RealmRoundTrip | src/bas/security/Realm.cpp:119-156 | a realm comes back from its nonempty members |
| Persistence.ModeDecides | src/bas/security/Binding.cpp:22-23 | the mode decides the effect by its exact text; another text and a missing mode are unknown |
| Persistence.ModeWritten | src/bas/security/Types.cpp:159-168 | the three texts under which an effect is saved |
| Persistence.OldNames | src/bas/security/PolicyStore.cpp:119-183 | lists and grants are read under their old names too, unless the new one is there |
| Persistence.OldBindingName | src/bas/security/Binding.cpp:34-38 | a binding names its list under an old name too |
| Persistence.MalformedSkipped | src/bas/security/PolicyStore.cpp:119-183 | items that are no objects are passed over |
| Persistence.LoadAppend | src/bas/security/PolicyStore.cpp:119-183 | items load one after the other; one that fails ends the loading, and what came before stays |
| Persistence.ItemFails | src/bas/script/json.cpp:65-77 | which members make one item fail |
| Persistence.NoArrayIsEmpty | src/bas/security/PolicyStore.cpp:119-183 | a member that is no array holds nothing |
| Persistence.FailureStops | src/bas/security/PolicyStore.cpp:119-183 | a list that fails ends the loading before any binding or grant, a binding that fails before any grant |
| Persistence.RealmFromText | src/bas/security/Realm.cpp:119-138 | a realm that is a string is a name, and one that is neither string nor object is empty |
| Persistence.OnlyFilledWritten | src/bas/security/PolicyStore.cpp:185-216 | lists are written exactly when they are not empty |
| Persistence.OnlyFieldsWritten | src/bas/security/ACList.cpp:65-78 | an id and a realm are written exactly when they are not empty |
| Persistence.RealmFieldsWritten | src/bas/security/Realm.cpp:138-156 | the fields of a realm are written exactly when they are not empty |
| Authorization.PathsAgree | src/bas/security/SecurityManager.cpp:98-106 | for any store and permission and any list of active identities, the two decision paths agree |
| Authorization.PathsAgreeExactly | src/bas/security/SecurityManager.cpp:98-106 | for any list with pairwise unequal references, the two paths agree under every store and permission exactly when each identity is active or has an active twin |
| Authorization.SelfEqualAgreeExactly | src/bas/security/SecurityManager.cpp:98-106 | where also each reference equals itself, exactly when every identity is active |
| Authorization.TwinsShareEntries | src/bas/security/PolicyStore.cpp:481-486 | no store, routed or not, gives twins different entries |
| Authorization.RouterDisagrees | src/bas/security/PolicyStore.cpp:337-355 | a router that mutes every realm with a key tells an inactive identity without an active twin apart |
| Authorization.TwinHidesInactive | src/bas/security/Identity.hpp:21-26 | two twins, one inactive: references unequal, and the paths always agree |
| Authorization.PathsDisagree | src/bas/security/SecurityManager.cpp:98-106 | for each inactive identity of such a list whose reference equals itself there is a store under which evaluate allows and checkPermission denies whatever is asked |
| Authorization.Evaluate | src/bas/security/SecurityManager.cpp:98-106 | the decision is the outcome of the subject's identities, of which the next rows say what it is, and gives no match as its reason exactly when no entry covers the request |
| Authorization.AllowsExactly | src/bas/security/AccessDecisionResolver.cpp:11-65 | a plain store allows exactly when some allowing entry applies to which every other that applies yields: it is less specific, or as specific and no deny |
| Authorization.OneGrantExactly | src/bas/security/PolicyStore.cpp:98-111 | what a single grant allows, and to whom |
| Authorization.CheckPermission | src/bas/security/SecurityManager.cpp:172-174 | the effect is the outcome of the active identities, undecided counting as denied |
| Authorization.PolicyCheckAny | src/bas/security/PolicyStore.cpp:543-559 | the verdict over the entries of all active identities |
| Authorization.PolicyFind | src/bas/security/PolicyStore.cpp:519-535 | the matching entries with their scores, routed or not |
| Authorization.RoutedTo | src/bas/security/PolicyStore.cpp:337-355 | a router hands an identity to the store filed under its realm, and to the global store otherwise |
| Authorization.RouteFindsSameEntries | src/bas/security/PolicyStore.cpp:312-355 | resolving the realm's store first finds the entries that the routed store finds itself |
| Authorization.EntriesPermute | src/bas/security/AccessDecisionResolver.cpp:11-65 | only the set of entries decides |
| Authorization.IdentitiesPermute | src/bas/security/SecurityManager.cpp:98-106 | reordering or repeating identities never changes an outcome |
| Authorization.GrantsPermute | src/bas/security/PolicyStore.cpp:98-111 | reordering or repeating grants and bindings never changes a verdict |
| Authorization.OutcomeIgnoresLower | src/bas/security/SecurityManager.cpp:98-106 | two stores that differ only in entries less specific than a covering one give the same outcome |
| Sessions.RunDistinct | src/bas/security/SecurityManager.cpp:108-170 | over every run no two active identities have equal references, although that equality is not transitive |
| Sessions.RunMember | src/bas/security/SecurityManager.cpp:108-170 | who is active after a run: exactly those brought in and not dropped later, or there before and never dropped |
| Sessions.ActivatedIs | src/bas/security/SecurityManager.cpp:108-144 | an activation keeps the survivors in order and appends the new identities, later ones winning |
| Sessions.LoginReplacesSession | src/bas/security/IdentityService.cpp:182-204 | after a password login the user and every role are active, and every login in the realm's scope comes from it |
| Sessions.UnrelatedStay | src/bas/security/SecurityManager.cpp:108-144 | identities unrelated by realm and reference stay, in order |
| Sessions.ReplacesScopeExactly | src/bas/security/SecurityManager.cpp:108-144 | for any set: it replaces every login in a realm's scope exactly when the realms it clears reach each part of the scope, by uuid, by name and by kind |
| Sessions.TakenTogether | src/bas/security/SecurityManager.cpp:109-128 | two cleared realms can reach a scope that neither reaches alone |
| Sessions.AbsorbsAlone | src/bas/security/SecurityManager.cpp:109-128 | one cleared realm reaches a whole scope exactly when it has the same key, or adds a name to a bare uuid |
| Sessions.StaleLoginStays | src/bas/security/SecurityManager.cpp:108-144 | one input on which an old login stays in the scope of a new one |
| Sessions.TwoLoginsExactly | src/bas/security/SecurityManager.cpp:114-117 | of two logins in scoped-equal realms, the second's scope is replaced exactly when the first realm has its key, or adds a name to its bare uuid |
| Sessions.Session.Activate | src/bas/security/SecurityManager.cpp:108-144 | the collecting, clearing and adding loops compute the activation that the next rows and the rows on runs are about; references stay distinct |
| Sessions.PrimaryActive | src/bas/security/SecurityManager.cpp:130-143 | the primary is active afterwards, member of the set or not |
| Sessions.MemberActive | src/bas/security/SecurityManager.cpp:130-143 | every member is active afterwards, unless the primary or a later member equals it |
| Sessions.NewFromSet | src/bas/security/SecurityManager.cpp:130-143 | whatever is active and was not before is a member of the set or its primary |
| Sessions.OthersStay | src/bas/security/SecurityManager.cpp:109-128 | an active identity stays when it equals nothing in the set and, if it is a login, no login of the set with a realm key is in its scope |
| Sessions.FirstLoginClears | src/bas/security/SecurityManager.cpp:109-128 | of the logins in the scope of the first login realm of its scope, only those of the set are active afterwards |
| Sessions.NoLoginClearsNothing | src/bas/security/SecurityManager.cpp:110-113 | identities that are no logins, or have no realm key, clear nothing |
| Sessions.AnonymousLogin | src/bas/security/IdentityService.cpp:45-69 | the anonymous login, whose primary is no member of its set, leaves both identities active |
| Sessions.Session.Logout | src/bas/security/SecurityManager.cpp:146-152 | drops what equals the reference and suppresses automatic login |
| Sessions.Session.LogoutType | src/bas/security/SecurityManager.cpp:154-160 | drops the identities of one kind and suppresses automatic login |
| Sessions.Session.LogoutRealm | src/bas/security/SecurityManager.cpp:167-170 | drops the logins in a realm's scope and suppresses automatic login |
| Sessions.Session.ClearLoginSession | src/bas/security/SecurityManager.cpp:480-487 | drops exactly the logins in a realm's scope, keeping the order |
| Sessions.Session.RemoveIdentityRef | src/bas/security/SecurityManager.cpp:489-493 | drops exactly what equals the reference, keeping the order |
| Utf8.DecodeEncode | src/bas/io/U32stringSource.cpp:13-38 | decoding the encoded bytes of any sequence of code points below 2^21 returns the sequence |
| Utf8.DecodeEncodeOne | src/bas/io/U32stringSource.cpp:20-33 | one code point is read back with its exact length, whatever follows |
| Utf8.DecodeEncodeExactly | src/bas/io/CharsetEncoder.cpp:84-101 | a code point decodes to itself exactly when it is below 2^21 |
| Utf8.EncodeDecodeOne | src/bas/io/U32stringSource.cpp:20-33 | a code point decoded from its shortest form is encoded by the same bytes |
| Utf8.EncodeDecodeExactly | src/bas/io/U32stringSource.cpp:13-38 | encoding a decoded text gives the text back exactly when it is shortest forms from start to end |
| Utf8.OverlongDecodes | src/bas/io/U32stringSource.cpp:23-25 | one overlong form that decodes |
| Utf8.EuroSign | src/bas/io/CharsetEncoder.cpp:84-101 | the bytes of one code point |
| Utf8.EncodeCodePoint | src/bas/io/CharsetEncoder.cpp:84-101 | the pushed bytes decode to the code point |
| Utf8.Utf8ToU32 | src/bas/io/U32stringSource.cpp:13-38 | the loop decodes up to the first place where no code point starts |
| Base64.Base64Decode | src/bas/net/DataUriInputStream.cpp:14-31 | the wrapping 32-bit accumulator gives the bytes of an unbounded one on input of any length; succeeds exactly when only table characters come before the first equals sign |
| Base64.WrapStep | src/bas/net/DataUriInputStream.cpp:23 | wrapping after each operation or once makes no difference |
| Base64.WrapKeepsByte | src/bas/net/DataUriInputStream.cpp:26 | wrapping never changes the byte that is emitted |
| Base64.BytesSpellDigits | src/bas/net/DataUriInputStream.cpp:18-29 | the emitted bytes are the number that the symbols spell, without the bits that fill no byte |
| Base64.EncodeSpells | src/bas/net/DataUriInputStream.cpp:12-31 | the standard encoding spells the byte string with as few zero bits as fill the last symbol |
| Base64.DecodeEncode | src/bas/net/DataUriInputStream.cpp:14-31 | decoding inverts the standard encoding with padding and interspersed white space |
| Base64.SpacesIgnored | src/bas/net/DataUriInputStream.cpp:17 | white space is ignored at every place |
| Base64.LineBreakIgnored | src/bas/net/DataUriInputStream.cpp:17 | line breaks are ignored |
| Sequences.SpaceExactly | src/bas/net/DataUriInputStream.cpp:17 | the six characters that are white space |
| Base64.DigitOf | src/bas/net/DataUriInputStream.cpp:12-23 | the value of each character, and that no other character has one |
| Uris.LosslessExactly | src/bas/net/URI.cpp:61-140 | composing a parsed text gives it back exactly when no empty authority follows a scheme |
| Uris.ComposeParsed | src/bas/net/URI.cpp:61-140 | in the other case exactly the two slashes are missing |
| Uris.ParseComposedExactly | src/bas/net/URI.cpp:61-140 | parsing what was composed from components gives them back exactly when each is free of its delimiters and the path cannot be mistaken for what precedes it |
| Uris.HostAndPath | src/bas/net/URI.cpp:11-91 | a scheme of ASCII letters, digits and the three marks, an authority and a path are read as such |
| Uris.DigitInScheme | src/bas/net/URI.cpp:11-21 | one input with a digit in its scheme |
| Uris.ParsedWellFormed | src/bas/net/URI.cpp:61-106 | parsing yields such components for every text but one family |
| Uris.ReparseExactly | src/bas/net/URI.cpp:61-140 | composing and parsing again gives the same components, except where dropped slashes expose two more |
| Uris.SlashesLost | src/bas/net/URI.cpp:76-84 | for every scheme and path: the slashes of an empty authority are lost, and a second pair turns into an authority |
| Uris.SlashesLostOn | src/bas/net/URI.cpp:76-84 | two inputs on which that happens |
| Uris.DirBaseExactly | src/bas/net/URI.cpp:108-125 | directory and base compose the path again, except for an empty name below the root |
| Uris.DirBaseAmbiguous | src/bas/net/URI.cpp:118-124 | a name below the root and the same below an empty name have the same directory and base |
| Uris.TrimScheme | src/bas/net/URI.cpp:11-21 | the longest prefix of scheme characters behind a first letter |
| Uris.Uri.Parse | src/bas/net/URI.cpp:61-106 | the index loops compute the components, and directory and base of the path |
| Uris.Uri.DeriveDirBase | src/bas/net/URI.cpp:108-125 | sets directory and base from the last slash of a nonempty path |
| Uris.Uri.Spec | src/bas/net/URI.cpp:132-140 | appending the defined components with their marks composes them |

## Left out

- `LAReader`: the code-point twin of the look-ahead buffer would repeat the same proofs over characters.
- `LAInputStream::seek`, `discardPrefetch` and `DecodingReadStream`: they move the cursor without keeping the window relation.
- `ReversedReader` with `m_optim` set, the truncation of the look-ahead count to `int`, and `readLine` with an encoding.
- ReversedReader.Reader.ReadLastLines: lines in an encoding other than UTF-8 are left out, and the file callback meets the contract of the modelled source only while its reads are full (ReversedReader.FullReadExactly).
- Overflow of buffer sizes, of the permission score and allocation failure: sizes and scores are unbounded integers. The base64 accumulator, whose wrapping matters, is modelled at 32 bits, with the shift of a signed overflow taken to wrap.
- `readBytes`, `readRawLineChopped` and the other conveniences of `InputStream`: they only add easy members.
- JSON text: serialization, the order of object members (an object is a map) and the values of numbers.
- Raw pointers into a document: `Location` holds addresses, so a pointer that dangles after a change is not modelled; it is used on the document it was made for.
- Change notifications (`emitChanged`), option conversion, `VolumeRegistry`, `LocalRegistry`; the store behind the cache is a map whose reads and writes succeed.
- `RRL` parsing and ordering, `PathStruct`.
- `Realm::match`, `displayLabel` and the realm-filtered `checkPermission`; `Realm::jsonIn` keeps a string whole where the code stops at a NUL character.
- `RealmPolicyStore` mutation and shared ownership: a routed store is a value. `FilePolicyStore` and credential stores are file I/O.
- `requestPermission`, automatic login, login forms, password checks and credential caches: a login result is an input.
- Identity attributes and the JSON form of whole identities.
- `parseAuthority` (user, password, host and port of a URI), the factories for http, https, ftp and file, `percentDecode` and the parameters of a data URI.
- Locales other than C for `isspace` and `isalpha`, and everything that needs ICU.
- Base64.BytesSpellDigits: leaves out the NUL character, which `strchr` finds behind the table as digit 64; the decoder itself is modelled with it.
- Commands, the application, translations and packaging.
