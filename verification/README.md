# libubox cores in Dafny

A model of four parts of libubox, with proofs about them:

- **uhtbl**, the coalesced hash table. All buckets live in one array:
  - the first `payload` buckets are hash-addressable, and the rest is a cellar for overflow;
  - chains are linked through `next` while WITHNEXT is set, and a bucket outside its home chain is a STRANGER;
  - deleted chain heads are compacted lazily by the allocator.

  The table is an immutable record over a sequence of buckets. Every operation is a pure function from table to table. The structural invariant is stated against a ghost witness that names each bucket's chain, position and predecessor.
- **blob**, the tagged-attribute builder. It is a growable buffer of header words, each holding an 8-bit id and a 24-bit length. Attribute lengths nest, and `blob_parse` sorts a container's attributes by id under a policy.
- **blobmsg**, the named attributes on top of blob:
  - the attribute check;
  - the policy matcher `blobmsg_parse`;
  - the rule that arrays take unnamed fields and tables take named ones.
- **uloop timers**, the deadline-ordered list of pending timeouts. Deadlines are compared with `tv_diff`. The model covers add, cancel, set, the next timeout and expiry. The current time is a parameter.

Files, one module each:

- `wrappers.dfy`: Option and bytes.
- `c_arith.dfy`: C's truncating division and its conversions to `unsigned int` and `int`.
- `uhtbl_flags.dfy`, `uhtbl_key.dfy`, `uhtbl.dfy`: the operations of uhtbl.c.
- `uhtbl_shape.dfy`: the invariant and lookup.
- `uhtbl_alloc.dfy`, `uhtbl_insert.dfy`, `uhtbl_place.dfy`: allocation and insertion.
- `uhtbl_unset.dfy`: removal.
- `uhtbl_scan.dfy`: iteration and clearing.
- `uhtbl_growth.dfy`: resize, set with growth, and init.
- `uhtbl_findings.dfy`: the insertion exactly as written, on the tables where it goes wrong.
- `blob_layout.dfy`: the header word.
- `blob.dfy`: the builder.
- `blob_nest.dfy`: the builder invariant.
- `blob_parse.dfy`: `blob_parse`.
- `blobmsg.dfy`: blobmsg.
- `uloop.dfy`: the timer list.

## Model

| member | source | states |
|---|---|---|
| UhtblFlags.FlagsRoundTrip | uhtbl.h:59-62 | decoding the byte a flag record is encoded as gives the record back |
| UhtblFlags.ByteRoundTrip | uhtbl.h:59-62 | a byte that uses only the four flag bits is the encoding of its decoding |
| UhtblFlags.MasksAreDistinctBits | uhtbl.h:59-62 | OCCUPIED, STRANGER, WITHNEXT and LOCALKEY are pairwise disjoint single bits |
| UhtblFlags.SingleBitUpdates | uhtbl.h:59-62 | each `flags \|= MASK` and `flags &= ~MASK` changes exactly its own flag and keeps the other three |
| UhtblKey.DecodeEncode | uhtbl.c:71-75 | reading back `n` little-endian bytes gives the number when it fits in `n` bytes |
| UhtblKey.EncodeDecode | uhtbl.c:71-75 | re-encoding a decoded byte string gives the string |
| UhtblKey.LongRoundTrip | uhtbl.c:71-75 | a local handle survives the trip through its eight bytes |
| UhtblKey.BytesRoundTrip | uhtbl.c:71-75 | every eight-byte string is the representation of exactly one handle |
| UhtblKey.LongBytesInjective | uhtbl.c:71-75 | distinct handles have distinct bytes, so local keys never collide |
| UhtblKey.LocalMeetsPointer | uhtbl.c:322-325 | a local key and a pointer key name the same table key exactly when the pointer designates eight bytes equal to the handle |
| Uhtbl.Home | uhtbl.c:307 | the home address lies below `payload` |
| Uhtbl.Walk | uhtbl.c:321-339 | a walk hit is an occupied bucket with equal key bytes; a miss stops at a bucket without WITHNEXT |
| Uhtbl.Find | uhtbl.c:300-340 | a free home is only returned when the caller asked for the main address; a hit holds the key; a hit without predecessor is the non-STRANGER home; a STRANGER at home means not found |
| Uhtbl.Get | uhtbl.c:64-66 | a bucket returned by get is occupied and holds the key's bytes |
| Uhtbl.FirstFree | uhtbl.c:283-288 | the downward scan returns the highest unoccupied bucket at or below the cursor, and none exactly when all of them are occupied |
| Uhtbl.Allocate | uhtbl.c:279-298 | the allocator fails exactly when the scan finds nothing; a candidate with a successor takes the successor in with STRANGER cleared and hands out the successor's slot; the cursor becomes the index below |
| Uhtbl.WriteKey | uhtbl.c:136-145 | the written bucket holds the key, is occupied, has LOCALKEY exactly for a local key, and keeps link, user byte and payload |
| Uhtbl.Overwrite | uhtbl.c:81-89 | overwriting leaves the bucket occupied with the key and the table well-formed |
| Uhtbl.ClaimHome | uhtbl.c:309-313 | a claimed home is occupied with the key |
| Uhtbl.LinkStranger | uhtbl.c:128-133 | the appended bucket is an occupied STRANGER with the key and no successor |
| Uhtbl.TakeHome | uhtbl.c:115 | the home becomes an occupied non-STRANGER holding the key with no successor |
| Uhtbl.MoveSquatter | uhtbl.c:113-114 | after the eviction's writes the home holds the key |
| Uhtbl.Append | uhtbl.c:116-133 | the collision case places the key in an occupied bucket, or finds no room only when no bucket is free |
| Uhtbl.Evict | uhtbl.c:93-115 | (repaired, see Findings) the eviction case places the key at an occupied bucket, or finds no room only when no bucket is free |
| Uhtbl.Place | uhtbl.c:68-149 | (repaired, see Findings) one insertion attempt places the key in an occupied bucket with LOCALKEY for local keys, or finds no room only when no bucket is free |
| Uhtbl.Unlink | uhtbl.c:178-189 | the unset bucket is no longer occupied, every other bucket keeps its occupancy, and no key bytes change |
| Uhtbl.Vacate | uhtbl.c:191-194 | `used` drops by one as a uint32_t and `nextfree` becomes the larger of the freed index and the old cursor |
| Uhtbl.Unset | uhtbl.c:167-197 | unset answers OK or ENOENT, leaves the table untouched on ENOENT, and keeps it well-formed; no bucket gains OCCUPIED, every occupied bucket of another key keeps it, no key bytes change, and the cursor `nextfree` never drops |
| Uhtbl.KeyOf | uhtbl.c:250-259 | the key arguments uhtbl_key reports name exactly the bucket's key bytes and form |
| Uhtbl.Next | uhtbl.c:151-158 | next returns the first occupied bucket at or after the cursor and moves the cursor past it, or none when no bucket from there on is occupied |
| Uhtbl.Clear | uhtbl.c:52-62 | after clear no bucket is occupied or linked and `used` is 0; the gc log keeps its old part and grows by exactly the number of occupied buckets when gc is set; the keys stay in place and the cursor restarts at the top bucket |
| UhtblShape.WalkSpec | uhtbl.c:321-339 | the chain walk ends and finds the bucket storing the key, with its chain predecessor, exactly when the key is stored further down the chain |
| UhtblShape.FindSpec | uhtbl.c:307-339 | lookup on a valid table finds the bucket storing the key with its predecessor, and misses exactly when the key is absent, ending at its chain's last bucket |
| UhtblShape.StrangerIffDeep | uhtbl.c:309-313 | a chain bucket is a STRANGER exactly when it is not its chain's head |
| UhtblAlloc.AllocateFailsOnlyWhenFull | uhtbl.c:279-298 | on a valid table the allocator fails exactly when every bucket is occupied |
| UhtblAlloc.AllocateShape | uhtbl.c:279-298 | a successful allocation keeps the invariant, contents and count, the handed-out slot aside |
| UhtblInsert.OverwriteShape | uhtbl.c:81-89 | overwriting the bucket that holds the key keeps the invariant and the count |
| UhtblInsert.ClaimShape | uhtbl.c:309-313 | claiming a free home for an absent key keeps the invariant and adds exactly that key |
| UhtblInsert.AttachShape | uhtbl.c:116-133 | appending a STRANGER to the chain's last bucket keeps the invariant and adds exactly the key |
| UhtblInsert.MoveShape | uhtbl.c:93-115 | moving the squatter to the fresh slot and repointing its predecessor keeps the invariant and adds exactly the key at its home |
| UhtblPlace.GetSpec | uhtbl.c:64-66 | get answers exactly the bucket that stores the key, and NULL exactly when none does |
| UhtblPlace.EvictSpec | uhtbl.c:93-115 | the eviction on a valid table never diverges and fails only on a full table |
| UhtblPlace.AppendSpec | uhtbl.c:116-133 | the collision case on a valid table fails only on a full table |
| UhtblPlace.PlaceSpec | uhtbl.c:68-149 | an insertion attempt never loops and runs out of room exactly when the key is new and the table full; otherwise the key is in one bucket and no other entry changes; a present key keeps its bucket, hands it to gc once and keeps `used`, while a new key raises `used` by one |
| UhtblUnset.UnsetSpec | uhtbl.c:167-197 | unset answers ENOENT exactly for an absent key; otherwise the table stays valid, loses exactly that key's entry, `used` drops by one, and gc sees the old bucket |
| UhtblUnset.RemoveSpec | uhtbl.c:160-165 | removing an occupied bucket succeeds and removes exactly its entry |
| UhtblUnset.UnsetThenGet | uhtbl.h:268-300 | after unset the lookup answers NULL |
| UhtblScan.ScanSpec | uhtbl.c:151-158 | iterating from a cursor visits every occupied bucket from there on exactly once, in increasing order, and nothing else |
| UhtblScan.ScanCount | uhtbl.h:249-264 | a full iteration of a valid table visits exactly `used` buckets |
| UhtblScan.OccupiedOfSpec | uhtbl.c:52-62 | the buckets handed to gc are the occupied ones, as many as are occupied |
| UhtblUnset.UnsetDuringScan | uhtbl.h:252-254 | unsetting a key during an iteration leaves the rest of it intact: from the saved cursor it visits exactly the buckets it would have visited, less the one that held the key |
| UhtblScan.ClearSpec | uhtbl.c:52-62 | clear leaves a valid, empty table and hands gc every entry once |
| UhtblGrowth.Resize | uhtbl.c:199-242 | resize answers OK, EINVAL or ENOMEM, leaves the table untouched unless it grew, and installs the new payload when it did |
| UhtblGrowth.Doubled | uhtbl.c:107 | the doubled payload differs from the old one and is twice it when that fits in 32 bits |
| UhtblGrowth.RehashSpec | uhtbl.c:225-238 | rehashing a valid table into a grown empty one never fails and keeps every entry, user byte and payload included |
| UhtblGrowth.ResizeSpec | uhtbl.c:199-242 | EINVAL exactly when the new size is below the payload or below `used`; ENOMEM exactly when allocation fails; otherwise the contents are kept in a valid table |
| UhtblGrowth.SetSpec | uhtbl.c:68-149 | set with growth never hangs, is undefined only when a doubled payload wraps to zero, and otherwise stores the key as one insertion attempt does; it fails only for an absent key on a full table whose resize answered EINVAL or ENOMEM, with the entries kept |
| UhtblGrowth.SetThenGet | uhtbl.h:202-240 | after a successful set the lookup answers the bucket set returned |
| UhtblGrowth.InitSpec | uhtbl.c:36-50 | init answers EINVAL exactly for a missing hash, a bucket smaller than the header, or a size below the payload; ENOMEM exactly when the allocation fails; otherwise an empty valid table |
| UhtblFindings.DuplicateKey | uhtbl.c:309-313 | as written, setting a key that lives down the chain of a freed head stores a second copy, and unsetting it leaves the older copy visible |
| UhtblFindings.DuplicateKeyRepaired | uhtbl.c:68-149 | the repaired attempt on the same table overwrites the one copy |
| UhtblFindings.LostEntry | uhtbl.c:99-103 | as written, the predecessor found before allocation is stale after compaction and an existing key becomes unreachable |
| UhtblFindings.LostEntryRepaired | uhtbl.c:93-115 | the repaired attempt on the same table keeps both old entries reachable |
| BlobLayout.PackRoundTrip | blob.c:26-32 | the header word's fields and its unsigned value determine each other |
| BlobLayout.Init | blob.c:26-32 | the packed word is the low 8 bits of the id above the low 24 bits of the length |
| BlobLayout.SetRawLen | blob.c:92 | setting the raw length replaces the low 24 bits and keeps the id |
| BlobLayout.PadLen | blob.c:92 | the padded length is the least multiple of 4 at or above the raw length |
| BlobLayout.PayloadLen | blob.c:144 | the payload length is the raw length minus the header, wrapping as an unsigned int below it |
| Blob.GrowBy | blob.c:21 | the default grower adds a multiple of 256 that exceeds the missing byte count by at most 256 |
| Blob.Add | blob.c:47-68 | blob_add grows only when the header and payload pass `buflen`, fails exactly when growth was needed and the grower failed, and otherwise writes the header at `pos` with enough room behind it |
| Blob.BufInit | blob.c:70-81 | blob_buf_init installs the default grower when there is none, makes offset 0 the head, and answers 0 with an empty attribute there or -ENOMEM |
| Blob.New | blob.c:83-94 | blob_new adds exactly one attribute and keeps the head, grower and bodies |
| Blob.Put | blob.c:96-108 | blob_put records exactly the first `len` bytes of `data` as the new attribute's body, and nothing when `data` is NULL |
| Blob.NestStart | blob.c:110-116 | the cookie is the old head, and the new attribute becomes the head |
| Blob.NestEnd | blob.c:118-124 | blob_nest_end makes the cookie the head again and rewrites only the cookie's word |
| Blob.HeaderLen | blob.c:66 | the header of a payload that fits holds the id and the payload plus header length |
| BlobNest.BufInitBuilding | blob.c:70-81 | an initialised buffer is well built with one empty open attribute at offset 0 |
| BlobNest.NewBuilding | blob.c:83-94 | blob_new keeps the buffer well built: the attribute lands where the head ends and the head grows by its padded length |
| BlobNest.NestStartBuilding | blob.c:110-116 | blob_nest_start keeps the buffer well built, with the old head open around the new head |
| BlobNest.NestEndBuilding | blob.c:118-124 | blob_nest_end with the matching cookie closes the outer attribute around the whole nested one and pops a level |
| BlobNest.CloseAround | blob.c:121-123 | the length blob_nest_end computes reaches exactly the end of the nested attribute |
| BlobParse.Parse | blob.c:134-177 | (repaired, see Findings: the validator judges the attribute) each table entry is the last attribute kept with that id, ids at or above `max` are ignored, and `found` counts the filled entries |
| BlobParse.LastKeptSpec | blob.c:171-174 | a later kept attribute with the same id replaces an earlier one; an entry is empty exactly when nothing with that id was kept |
| BlobParse.KeepsSpec | blob.c:146-168 | a kept attribute has an id below `max`, exactly its integer size or at least its type's minimum, meets the nonzero bounds, and passes the validator |
| BlobParse.KeepsWithoutInfo | blob.c:149 | without a policy table every attribute with an id below `max` is kept |
| BlobParse.ValidatorSeesContainer | blob.c:166-167 | as written, the validator judges the container, so an attribute it rejects is kept |
| BlobMsg.CheckAttrAsWritten | blobmsg.c:18-36 | the check as written reads its NUL past the end of the buffer (no verdict) exactly when the earlier tests pass and the name length reaches the end of the buffer; a true verdict means a name length within the payload followed by a NUL |
| BlobMsg.CheckAttr | blobmsg.c:18-36 | the corrected check accepts exactly a payload that holds the padded name header (`blobmsg_hdrlen`), with the name nonempty when a name is required, and a NUL right after the name |
| BlobMsg.CheckAttrLocal | blobmsg.c:29-33 | the corrected check depends on the attribute's own bytes only |
| BlobMsg.CheckAttrStricter | blobmsg.c:18-36 | the corrected check accepts only what the check as written accepts |
| BlobMsg.CheckAttrReadsPast | blobmsg.c:29-33 | as written, two attributes with equal bytes get different verdicts, decided by the byte after them |
| BlobMsg.StrEqSpec | blobmsg.c:74 | strcmp finds equal exactly the names whose bytes match, NUL included |
| BlobMsg.MatchSpec | blobmsg.c:57-78 | the inner loop fails exactly when a candidate fails the check or a fully matching policy's entry is already filled, and otherwise fills exactly the fully matching entries |
| BlobMsg.ScanSpec | blobmsg.c:55-79 | after each attribute the table is sound, and the parse still goes on exactly when no attribute so far is bad, with the table then complete |
| BlobMsg.ParseSpec | blobmsg.c:38-82 | every filled entry holds an attribute of the policy's type, name length and name that passes the check; -1 exactly when some attribute is bad; on 0 every fully matching attribute is recorded |
| BlobMsg.UnnamedNeverFilled | blobmsg.c:58-59 | a policy without a name never fills its entry |
| BlobMsg.FullMatchName | blobmsg.c:65-75 | a matched name equals the policy's name byte for byte |
| BlobMsg.DuplicateBeforeName | blobmsg.c:68-77 | as written, an attribute of another name with the same name length fails the parse once the entry is filled |
| BlobMsg.MsgNew | blobmsg.c:85-113 | blobmsg_new refuses a field the container does not take and otherwise adds it with the name header in front in a table; the name length is kept as a uint16_t |
| BlobMsg.MsgNewBuilding | blobmsg.c:85-113 | blobmsg_new keeps the buffer well built, the field landing where the head ended with header, name header and payload |
| BlobMsg.OpenNested | blobmsg.c:122-141 | blobmsg_open_nested answers the old head exactly when the container takes the field, and otherwise NULL with the buffer unchanged |
| BlobMsg.OpenTableGrowFails | blobmsg.c:133-137 | when blobmsg_new adds nothing, opening a table in a table still answers the old head's offset and leaves `head` NULL, also after a failed realloc |
| BlobMsg.OpenTableReallocFails | blobmsg.c:133-137 | a one-word table buffer whose realloc fails: opening a named table answers offset 0 with `head` NULL and the buffer not live |
| BlobMsg.OpenNestedBuilding | blobmsg.c:122-141 | opening a container keeps the buffer well built, with the old head open around the new container, which skips its name header in a table |
| BlobMsg.AddField | blobmsg.c:143-162 | containers are refused with -1; 0 means blobmsg_new succeeded and exactly the first `len` bytes were recorded as the value |
| BlobMsg.AddFieldBuilding | blobmsg.c:143-162 | adding a field keeps the buffer well built |
| ULoop.ToInt | uloop.c:256-262 | the conversion to `int` lands in the 32-bit range and keeps values already in it |
| ULoop.TvDiffSign | uloop.c:256-262 | on normal times tv_diff is positive only for a later instant and negative only for an earlier one; it is 0 exactly within the same second with less than a millisecond between; a millisecond or more later is positive |
| ULoop.TvDiffAntisymmetric | uloop.c:256-262 | swapping the arguments negates tv_diff |
| ULoop.TvDiffIgnoresMicros | uloop.c:258-259 | one microsecond across a second boundary reads as 1000 ms |
| ULoop.FirstLaterSpec | uloop.c:272-278 | the insertion point comes after every deadline not later by tv_diff and right before the first later one |
| ULoop.Add | uloop.c:264-288 | add answers -1 and changes nothing for a pending timer; otherwise the list grows by the timer at the insertion point, and it is pending |
| ULoop.AddSpec | uloop.c:272-285 | the timer is spliced in after every timer whose deadline is not later, so equal deadlines stay in the order they were added |
| ULoop.AddWf | uloop.c:280-285 | adding keeps each timer linked at most once and `pending` true exactly for linked timers |
| ULoop.AddOrdered | uloop.c:272-285 | adding a normal deadline keeps the list in deadline order, to within a millisecond |
| ULoop.Cancel | uloop.c:310-326 | cancel answers -1 and changes nothing for a timer that is not pending; otherwise it unlinks the timer and clears `pending` |
| ULoop.CancelSpec | uloop.c:315-323 | cancel removes exactly that timer, keeps the rest in order and keeps the list invariant |
| ULoop.CancelAdd | uloop.c:264-326 | cancelling right after adding gives the loop back |
| ULoop.CancelOrdered | uloop.c:315-323 | cancelling keeps the list in deadline order |
| ULoop.Deadline | uloop.c:297-305 | the deadline is normal and lies exactly `msecs` milliseconds after `now` |
| ULoop.DeadlineMillisAsMicros | uloop.c:299-305 | as written, 1500 ms from 0 gives 1.0005 s, and 1 ms from 0.999999 s leaves a microsecond field of a whole second |
| ULoop.SetSpec | uloop.c:290-308 | set always answers 0, keeps the list invariant, and leaves the timer pending, linked once, with the new deadline |
| ULoop.NextTimeout | uloop.c:342-354 | the next timeout is -1 exactly for an empty list and never below -1 |
| ULoop.NextTimeoutSpec | uloop.c:346-353 | 0 exactly when the first deadline is not later by tv_diff; waiting a positive answer ends within a second of the first deadline, and every deadline lies after `now` but for a millisecond |
| ULoop.ProcessTimeouts | uloop.c:356-369 | exactly the leading timers whose deadline is not later by tv_diff fire, in list order, each unlinked and no longer pending; the rest stays listed and in order, and the next timeout is then -1 or positive |

## Left out

- Callbacks are left out. The hash function is a parameter. gc calls are recorded as a log of the buckets handed over. The blob grower is a function parameter. The blob_parse validator is a closure. The timer callbacks do not run, so what a callback does to the list during expiry is not modelled.
- Floating point: the size `payload / UHTBL_PAYLOADFACTOR` in uhtbl_resize is an abstract function of the payload. Only the checks made on it are modelled.
- Memory management: `calloc` and `realloc` are oracles (`allocs`, `mem`). The model does not cover `memcpy` and `memcmp` on raw pointers, `free`, or the pointer-to-index arithmetic.
- Blob.Add: a failed `realloc` leaves `buf` NULL. The model answers NULL, as blob_add does, and marks the buffer not live. It does not model what a later call that needs no growth would write through the NULL buffer: that call is Undefined.
- blob.h and blobmsg.h are not part of this model. Their constants are used as libubox defines them:
  - the 4-byte header and 4-byte alignment;
  - the 24-bit length and 8-bit id;
  - the 2-byte name-length header;
  - the blobmsg types UNSPEC 0, ARRAY 1 and TABLE 2;
  - the attribute types of blob_parse.
- The big-endian byte order of the header word is not modelled. The 16-bit name length is in host byte order and is carried as a number.
- Walking a container's attributes (`blob_for_each_attr`) is left to the caller. blob_parse and blobmsg_parse take the attributes as a sequence.
- uloop: `time_t` and `suseconds_t` are unbounded integers. Only the conversion of tv_diff's result to `int` wraps. `gettimeofday` is the `now` parameter. Polling, file descriptors, signals and `uloop_run` are left out.
- ULoop.AddOrdered, ULoop.CancelOrdered, ULoop.ProcessTimeouts: the list order is stated to within 999 microseconds. The order holds only for normal deadlines within 2147483 seconds of each other. The reason is that tv_diff cuts the sub-millisecond part within a second, so its "not later" is not transitive.
- UhtblGrowth.ResizeSpec: uhtbl_resize checks `used` against the computed size. The header's comment asks for `payload` to be at least the occupied count. The model follows the code: a payload below `used` is accepted whenever the size holds every entry.
- usock.c, ucix.c, blobmsg_json.c and utils.h are not part of this model. They are socket plumbing, wrappers over foreign libraries, or declarations only.

## Findings

| source | as written | input that shows it | evidently intended | confidence | as-written member | corrected member |
|---|---|---|---|---|---|---|
| uhtbl.c:309-313 | a free home is handed out without walking the chain a deleted head still links | set [1], set [2] (same home), unset [1], set [2] | the chain is walked first and the home reused only for an absent key | not executed; high | UhtblFindings.PlaceAsWritten, UhtblFindings.DuplicateKey | Uhtbl.Place, UhtblPlace.PlaceSpec |
| uhtbl.c:99-103 | the squatter's predecessor is looked up before the allocator compacts the chain, which can move it | free head 0 → [1] in the cellar → [2] squatting on bucket 1; set [3] of home 1 | allocate first, then find the predecessor | not executed; high | UhtblFindings.EvictAsWritten, UhtblFindings.LostEntry | Uhtbl.Evict, UhtblPlace.EvictSpec |
| blob.c:167 | the validator is handed the container, not the attribute | a validator accepting only id 1; a container of id 1 holding an attribute of id 0 | `validate(&info[id], pos)` | not executed; high | BlobParse.KeepsAsWritten, BlobParse.ValidatorSeesContainer | BlobParse.Keeps, BlobParse.KeepsSpec |
| blobmsg.c:29-33 | the name length is bounded by the payload length, so the NUL test reads past the attribute | payload of 4 bytes with name length 2: the NUL is read at the byte after the attribute | the header, the name and its NUL must fit the payload | not executed; high | BlobMsg.CheckAttrAsWritten, BlobMsg.CheckAttrReadsPast | BlobMsg.CheckAttr, BlobMsg.CheckAttrLocal |
| blobmsg.c:68-77 | a filled entry fails the parse before the names are compared | policy "ab"; attributes "ab" then "cd" | only a second attribute of the same name fails | not executed; medium | BlobMsg.ParseAsWritten, BlobMsg.DuplicateBeforeName | BlobMsg.Parse, BlobMsg.ParseSpec |
| uloop.c:299-305 | milliseconds are added to the microsecond field unscaled, and an overflow is reduced modulo 100000 | 1500 ms from 0 s gives 1.0005 s; 1 ms from 0.999999 s gives a microsecond field of 1000000 | add `(msecs % 1000) * 1000` and carry a whole second at 1000000 | not executed; high | ULoop.DeadlineAsWritten, ULoop.DeadlineMillisAsMicros | ULoop.Deadline, ULoop.SetSpec |
