# Proofs about a cloud-backed file system with content-defined segmentation

The repository is a FUSE file system that keeps small files on a local SSD and moves large ones to
an S3-like cloud, together with a Rabin-fingerprint segmentation library and an S3 command-line
client. This project models five parts of it and proves what each is for:

* **The fingerprint library** (`dedup-lib`). `GF2.dfy` defines polynomials over the two-element
  field as sets of exponents, with no word size; `Words.dfy` says what a machine word's bits mean
  as such a polynomial; `Msb.dfy` and `PolyWords.dfy` prove the 64-bit code exact. `RabinSpec.dfy`
  states the fingerprint from scratch ("the window's bytes as one polynomial, reduced") and
  `RabinPoly.dfy` proves that the object with its tables, ring buffer and truncated shifts computes
  it byte by byte, for every polynomial of degree 8 to 63; the shipped one is shown to have degree
  63. `Segments.dfy` specifies segmentation twice, as a scan and by where each segment must end,
  and `RabinDriver.dfy` proves the example program's loops against it; `RabinCuts.dfy` says where the
  shipped segmenter cuts without any of this, from remainders of byte strings and sizes. `Machines.dfy` holds what is
  true of any machine that reads a stream item by item, `Common.dfy` what several parts share.
* **The two-tier store** (`cloudfs`). `FileSpec.dfy` is what a user may observe, twice: a plain map
  from paths to bytes with open sessions, and what the implementation makes of it; it says exactly
  which runs of the second are runs of the first. `CloudFs.dfy` carries out the same operations on names, metadata
  files, cloud objects and handles, step by step as the C code does, and proves refinement,
  placement and isolation.
* **Chunked transfers** (`cloud-lib/cloudapi.c`, `cloudfs/s3_cloudfs.c`), in `CloudApi.dfy` over the
  streams of `Streams.dfy`.
* **The paginated listing** (`cloud-lib/cloudapi.c`), in `ListBucket.dfy`.
* **The S3 client** (`s3-client/src/s3.c`): the circular buffer of an upload from standard input
  (`GrowBuffer.dfy`, `StdinUpload.dfy`) and the access-control-list printer and parser
  (`AclText.dfy`, `AclCommands.dfy`, and for where the parser leaves its text and its arrays
  `AclOverrun.dfy` and `AclOverflow.dfy`; `AclLiterals.dfy` fixes the texts character by character).

Code that changes state is modelled by classes and loops that are proved against specification
functions; what the source promises is then proved about those functions.

## Where the code does not do what it is meant to

Each of these is stated as a theorem rather than assumed away.

* Opening a file unlinks its local copy before asking the cloud (`cloudfs/cloudfs.c:402-403`), so a
  file that stayed on the SSD comes back empty (`FileSpec.WriteOnceDiffers` is a run that loses a
  byte, `FileSpec.OpenKeeps` the condition for one open).
* Releasing a file goes by its name, not by its descriptor (`cloudfs/cloudfs.c:493`). If a file is
  fetched from the cloud and not written to, and its name is unlinked and created again before it is
  released, the new file is replaced by a link to metadata that is gone
  (`cloudfs/cloudfs.c:530-539`): it has no attributes and cannot be created again. This happens for
  every threshold (`FileSpec.StaleRunDiffers`, `FileSpec.NoThresholdIsSafe`).
* These two are all. `FileSpec.FollowsExactly`: a run is indistinguishable from one of a plain file
  map exactly when no open loses contents and no release is stale; with a threshold that is not
  positive, which is the shipped default (`cloudfs/main.c:54`), exactly when no release is stale
  (`FileSpec.FollowsUnlessStale`, `FileSpec.AgreesIffNoThreshold`). What release itself returns is
  not compared (`FileSpec.SameAnswer`), since the caller of close never learns it; the plain map's
  always succeeds, the code's complains exactly when the name is gone.
* `get_key` turns both `/` and `+` into `+`. `CloudFs.KeyCollision` says exactly which paths share a
  key, `CloudFs.IsolatedExactly` that these and no others disturb each other in the cloud, and
  `CloudFs.TwinRun` is a run in which a file nobody made shows another's bytes, and unlinking it
  destroys the other.
* The parser keeps the parentheses the printer puts around display names, so a list with a user in
  it never comes back the same (`AclText.ExactWithoutUsers`); otherwise printing and parsing undo
  each other exactly for the lists of `AclText.RoundTrip`.
* A field of an access control list at the very end of the text is copied past the terminator, an
  outcome the model calls `Overrun` (`AclOverrun.Overruns` gives two texts,
  `AclOverrun.AddressRunsOver` and `AclOverrun.OwnerRunsOver` whole families). A text stays safe,
  whatever it holds, exactly when it ends in white space (`AclOverrun.StaysExactly`); printed lists
  always do (`AclOverrun.PrintedStays`).
* The parser copies up to 128 characters into the owner's two arrays of 128 and puts the terminator
  behind them (`s3-client/src/s3.c:567-575` and `s3-client/src/s3.c:598-601`). `AclOverflow.Overflows` is an accepted
  text that does this; an owner line is read inside the arrays exactly when both its words are
  shorter than 128 characters (`AclOverflow.OwnerFitsExactly`), a whole text if no run in it is that
  long (`AclOverflow.ShortRunsStay`), as printed lists are (`AclOverflow.PrintedInside`).
* The listing starts from the text `(null)`, which `snprintf` writes for a null pointer: keys at or
  below it are never reported (`ListBucket.CoversBucket`). Markers are cut to 1023 characters: a
  listing is sure to end exactly when all keys to be listed are shorter than the array
  (`ListBucket.EndsExactly`).
* `growbuffer_append` writes at `data[size]`, not `data[start + size]`: right exactly when nothing
  of the last block has been read (`GrowBuffer.AppendPlace`). The upload fills first and drains
  afterwards, so it is not affected.

## Model

| member | source | states |
|---|---|---|
| GF2.RemainderUnique | dedup-lib/rabinpoly.c:64-86 | there is only one polynomial of smaller degree than d that differs from a by a multiple of d, so "the remainder" is well defined |
| GF2.ModEqual | dedup-lib/rabinpoly.c:64-86 | two polynomials have the same remainder if and only if they differ by a multiple of d |
| GF2.MulCoefficient | dedup-lib/rabinpoly.c:88-104 | the coefficient of x^k in a product is the parity of the number of ways to write k as a sum of exponents: the product is the carry-less one |
| GF2.MulAssociates | dedup-lib/rabinpoly.c:106-112 | multiplication of polynomials is associative |
| GF2.MulCommutes | dedup-lib/rabinpoly.c:106-112 | multiplication of polynomials is commutative |
| GF2.DegMul | dedup-lib/rabinpoly.c:88-104 | degrees add under multiplication |
| GF2.ModMul | dedup-lib/rabinpoly.c:106-112 | reducing a factor first does not change a product modulo d |
| Words.BitsInjective | dedup-lib/rabinpoly.c:64-112 | a word is determined by the polynomial its bits spell |
| Words.BitsXor | dedup-lib/rabinpoly.c:73-83 | exclusive or of words is addition of polynomials |
| Words.BitsShl | dedup-lib/rabinpoly.c:95-99 | a left shift multiplies by a power of x and drops exactly the terms from x^64 up |
| Words.BitsShr | dedup-lib/rabinpoly.c:157 | a right shift divides by a power of x and drops exactly the terms below it |
| Msb.ByteMsbExact | dedup-lib/msb.c:27-39 | every one of the 256 table entries is the position of its index's most significant bit |
| Msb.MsbUnique | dedup-lib/msb.h:41-54 | at most one position is the most significant one |
| Msb.Fls32 | dedup-lib/msb.h:42-54 | 0 for 0, otherwise the r with 2^(r-1) <= v < 2^r, for every 32-bit v |
| Msb.Fls64 | dedup-lib/msb.h:64-71 | the same for every 64-bit v |
| Msb.Log2c64 | dedup-lib/msb.h:74-78 | -1 for 0, otherwise the ceiling of the base-2 logarithm |
| Msb.FlsIsDegree | dedup-lib/rabinpoly.c:68 | fls64(v) - 1 is the degree of the polynomial v holds |
| PolyWords.PolyMult | dedup-lib/rabinpoly.c:88-104 | the two result words are the exact 128-bit carry-less product |
| PolyWords.PolyMod | dedup-lib/rabinpoly.c:64-86 | for every 128-bit dividend and every nonzero d the result is the remainder |
| PolyWords.PolyMMult | dedup-lib/rabinpoly.c:106-112 | multiplication in the ring of polynomials modulo d |
| PolyWords.HighStep | dedup-lib/rabinpoly.c:71-79 | one pass of the first loop keeps the value modulo d and lowers the degree of the high word, across the word boundary |
| PolyWords.LowStep | dedup-lib/rabinpoly.c:80-84 | one pass of the second loop keeps the value modulo d and lowers the degree of the low word |
| RabinSpec.BytesPolyTerms | dedup-lib/rabinpoly.c:155-158 | a byte string read as a polynomial, term by term: the last byte holds x^0 to x^7, each byte before it the next eight |
| RabinSpec.AppendExact | dedup-lib/rabinpoly.c:155-158 | for degree 8 to 63 the table step gives (p x^8 + m) mod poly although p << 8 and i << xshift lose bits: the lost bits are the same on both sides |
| RabinSpec.TableIndex | dedup-lib/rabinpoly.c:157 | p >> shift is below 256 for every reduced p |
| RabinSpec.TableEntry | dedup-lib/rabinpoly.c:125-127 | or-ing the truncated shift over the reduced product gives the entry the append step needs |
| RabinSpec.SlideExact | dedup-lib/rabinpoly.c:152 | removing the oldest byte with U and appending the new one with T turns the fingerprint of a window into that of the next window |
| RabinPoly.Rabin.Append8 | dedup-lib/rabinpoly.c:155-158 | the result is (p x^8 + m) mod poly, again of smaller degree than poly |
| RabinPoly.Rabin.Replace | dedup-lib/rabinpoly.c:145-151 | the ring drops its oldest byte and gains the new one, including the first step, where the position wraps from -1 |
| RabinPoly.Rabin.Slide8 | dedup-lib/rabinpoly.c:143-153 | the window moves by one byte and the fingerprint is again that of the window, computed from scratch |
| RabinPoly.Rabin.CalcT | dedup-lib/rabinpoly.c:118-137 | both tables hold what the append and slide steps need |
| RabinPoly.Rabin.FillT | dedup-lib/rabinpoly.c:121-127 | every T entry is the reduced i x^k over its truncated shift |
| RabinPoly.Rabin.ShiftThroughWindow | dedup-lib/rabinpoly.c:129-132 | sizeshift is x^(8 (window size - 1)) mod poly |
| RabinPoly.Rabin.FillU | dedup-lib/rabinpoly.c:134-136 | every U entry is its byte shifted through the window, reduced |
| RabinPoly.Rabin.constructor | dedup-lib/rabinpoly.c:184-202 | a new object, for any polynomial of degree 8 to 63, has consistent tables, a zero window and an empty segment |
| RabinPoly.RabinInit | dedup-lib/rabinpoly.c:165-203 | fails exactly on the rejected size combinations, otherwise gives a fresh object with the shipped polynomial |
| RabinPoly.ShippedDegree | dedup-lib/rabinpoly.c:37 | the shipped polynomial has degree 63 |
| RabinPoly.MaskFor | dedup-lib/rabinpoly.c:189 | mask + 1 is the largest power of two not above the average size |
| RabinPoly.MaskTest | dedup-lib/rabinpoly.c:226 | the masked fingerprint vanishes exactly when fingerprint and mask have no term in common |
| RabinPoly.RollingIsFromScratch | dedup-lib/rabinpoly.c:118-158 | after any stream the fingerprint is the remainder of the last window of bytes, zero-padded, oldest first, read as one polynomial |
| RabinPoly.Rabin.Take | dedup-lib/rabinpoly.c:219-231 | one byte moves the object exactly as the segmentation scan moves, and it cuts where the scan cuts |
| RabinPoly.Rabin.SegmentNext | dedup-lib/rabinpoly.c:205-235 | consumes exactly up to the first cut or to the end of the buffer, and cur_seg_size stays below the maximum |
| RabinPoly.Rabin.Reset | dedup-lib/rabinpoly.c:237-242 | the state is that of a new object |
| RabinPoly.StateDeterminesObject | dedup-lib/rabinpoly.c:143-158 | objects with equal polynomial, window size and abstract state hold the same fingerprint and tables however their rings are rotated |
| RabinPoly.ResetIsNew | dedup-lib/rabinpoly.c:237-242 | after any history, an object that is reset and reads a stream holds, after every byte, the fingerprint and segment size of a new object with its parameters |
| RabinDriver.ResetAgainstNew | dedup-lib/rabinpoly.c:205-242 | after any history, an object that is reset returns for every stream, however divided, the segment lengths a new object returns |
| RabinPoly.Resynchronised | dedup-lib/rabinpoly.c:143-153 | two objects that have just cut, after streams that end in the same window, are in the same state however their rings are rotated |
| RabinPoly.SegmentAlike | dedup-lib/rabinpoly.c:205-235 | two objects in the same state return the same count and flag for the same buffer and are in the same state again |
| RabinDriver.SegmentBuffersAlike | dedup-lib/rabinpoly.c:205-235 | and so for all calls that consume a buffer |
| Segments.FirstCutUnique | dedup-lib/rabinpoly.c:218-234 | where a call stops, and whether at a cut, is determined by the scan's state and the bytes |
| Segments.SizesAddUp | dedup-lib/rabinpoly.c:216-234 | cut segments and the open one account for every byte |
| Segments.OpenBelowMax | dedup-lib/rabinpoly.c:216-234 | between bytes the open segment is shorter than the maximum in every reachable state |
| Segments.WindowIsLastBytes | dedup-lib/rabinpoly.c:143-153 | the scan's window is the last bytes of the stream, zeros before its beginning |
| Segments.CutsAreSegmentation | dedup-lib/rabinpoly.c:218-232 | every cut is at the earliest position that is long enough and hits or reaches the maximum |
| Segments.SegmentationUnique | dedup-lib/rabinpoly.c:218-232 | that reading leaves only one list of segments |
| Segments.SegmentBounds | dedup-lib/dedup.h:53-56 | every segment is between min and max long, and what is left over is shorter than max |
| Segments.Resynchronise | dedup-lib/rabinpoly.c:205-235 | two streams that have both just been cut and end in the same window are cut alike in any common continuation |
| RabinDriver.SegmentBuffer | dedup-lib/rabin-example.c:95-119 | the inner loop consumes one buffer and goes on with the scan from where the stream stood |
| RabinDriver.SegmentChunks | dedup-lib/rabin-example.c:94-127 | for any division of a stream into reads the printed lengths are those of the whole stream |
| RabinDriver.SegmentFile | dedup-lib/rabin-example.c:75-135 | the whole program: lengths depend on the bytes only, add up to the file, all but the last lie between min and max, and each segment ends at the first place at least min away that is max away or where the remainder of the last window modulo the shipped polynomial has no term below the size of the mask |
| RabinCuts.SegmentationCutsAtFirst | dedup-lib/rabinpoly.c:222-231 | the specification's segments are those, in terms of remainders and sizes alone |
| RabinCuts.HitIsBoundary | dedup-lib/rabinpoly.c:226 | a masked fingerprint of zero is a remainder without a term below x^k, where 2^k is the largest power of two not above the average |
| RabinCuts.ZerosCutAtMin | dedup-lib/rabinpoly.c:222-231 | a file of zeros is cut into segments of the minimum size |
| RabinDriver.ZeroFile | dedup-lib/rabin-example.c:75-135 | 2048 zeros with an average of 2048 and bounds of 1024 and 4096 give the lengths 1024, 1024, 0 |
| FileSpec.FollowsExactly | cloudfs/cloudfs.c:345-640 | for every threshold a run gives the answers and file sizes of a plain map from paths to bytes, at every step, if and only if no open loses contents and no release is stale |
| FileSpec.FollowsUnlessStale | cloudfs/cloudfs.c:345-640 | with a threshold that is not positive: if and only if no session opened on an object and not written is released after its name was unlinked and created again |
| FileSpec.AgreesIffNoThreshold | cloudfs/cloudfs.c:388-434 | all runs from an empty store without a stale release are runs of the plain map if and only if the threshold is not positive |
| FileSpec.HarmlessStep | cloudfs/cloudfs.c:345-640 | any other single step changes files and sessions as the plain map does and gives its answer |
| FileSpec.HarmfulStep | cloudfs/cloudfs.c:402-403 | a losing open or a stale release shows at once in the file's size |
| FileSpec.StaleRunDiffers | cloudfs/cloudfs.c:493-539 | for every threshold, a run of one session at a time after which a file that was just created is not there |
| FileSpec.NoThresholdIsSafe | cloudfs/cloudfs.c:493-539 | no threshold makes every run one of the plain map |
| FileSpec.StaleNeedsUnlink | cloudfs/cloudfs.c:872-897 | a run without unlink has no stale release |
| FileSpec.NeverStaleNeverDangles | cloudfs/cloudfs.c:530-539 | only stale releases leave links without metadata |
| FileSpec.WriteOnceDiffers | cloudfs/cloudfs.c:402-403 | for every positive threshold, a run that writes, closes, reopens and reads one byte gets nothing back |
| FileSpec.OpenKeeps | cloudfs/cloudfs.c:399-418 | one open keeps a file's contents exactly when they are empty or longer than the threshold |
| FileSpec.ReopenSees | cloudfs/cloudfs.c:388-434 | an open sees what the last release on the path left, whatever happens on other paths in between |
| FileSpec.RunElsewhere | cloudfs/cloudfs.c:479-589 | no run on other paths changes a path's contents or session |
| FileSpec.SliceExact | cloudfs/cloudfs.c:444 | a read returns the bytes from the offset on, as many as asked for or as the file has |
| FileSpec.ReadsAll | cloudfs/cloudfs.c:388-452 | from every state, opening a file and reading enough from its start gives all that opening left of it, and getattr its length |
| FileSpec.WrittenIsReadBack | cloudfs/cloudfs.c:345-640 | from an empty store, a file longer than the threshold that is written and released is read back whole |
| FileSpec.ReadsOnUnlinked | cloudfs/cloudfs.c:436-452 | a session's reads answer as before once its name is unlinked |
| FileSpec.SessionLife | cloudfs/cloudfs.c:388-589 | from every state, the answers of a session that writes, reads, is unlinked, reads again and is released |
| FileSpec.NameLife | cloudfs/cloudfs.c:345-367 | from every state without the name, the answers of creating it, creating it again and removing it twice |
| FileSpec.RefusedAccess | cloudfs/cloudfs.c:436-477 | a session opened for reading refuses writes, one opened for writing refuses reads |
| FileSpec.WriteThenRead | cloudfs/cloudfs.c:436-477 | written bytes are read back and bytes outside the write are unchanged |
| CloudFs.GetKey | cloudfs/s3_cloudfs.c:36-53 | the loop maps every character, so the key is as long as the path |
| CloudFs.KeyCollision | cloudfs/s3_cloudfs.c:36-53 | two paths share a key exactly when they differ only by / against + |
| CloudFs.IsolatedExactly | cloudfs/s3_cloudfs.c:36-53 | uploads and deletions for one path never touch what another downloads if and only if their keys differ |
| CloudFs.TwinPaths | cloudfs/s3_cloudfs.c:36-53 | two paths that are not isolated |
| CloudFs.TwinRun | cloudfs/s3_cloudfs.c:36-53 | for any two paths with one key: after one is written and released, opening the other reads its bytes, and unlinking the other destroys it |
| CloudFs.FetchTwin | cloudfs/s3_cloudfs.c:105-125 | a download for a path whose key another path in the cloud has gives that path's bytes |
| CloudFs.KeyInjective | cloudfs/s3_cloudfs.c:36-53 | keys are injective on paths without + |
| CloudFs.CloudFs.Mknod | cloudfs/cloudfs.c:345-367 | refines the specification's step and touches only this path's places |
| CloudFs.CloudFs.Open | cloudfs/cloudfs.c:388-434 | refines the specification's step: the local copy is what the cloud has, or empty; only this path's places change |
| CloudFs.CloudFs.Read | cloudfs/cloudfs.c:436-452 | reads the specification's bytes whichever tier they came from |
| CloudFs.CloudFs.Write | cloudfs/cloudfs.c:454-477 | refines the specification's step, keeping the dirty bit truthful |
| CloudFs.CloudFs.Release | cloudfs/cloudfs.c:479-589 | refines the specification's step, by the size of what the name denotes, also after the name was unlinked and created again |
| CloudFs.CloudFs.WriteDescriptor | cloudfs/cloudfs.c:462-476 | what a write, refused or not, does to the dirty bit and to the bytes behind the descriptor |
| CloudFs.CloudFs.Migrate | cloudfs/cloudfs.c:498-573 | what each branch on proxy, dirty and size does to names and cloud |
| CloudFs.UnlinkTied | cloudfs/cloudfs.c:872-897 | unlink as seen from one path's places: nothing is left in them, an open descriptor keeps its bytes, and the answer is the specification's |
| CloudFs.CloudFs.Unlink | cloudfs/cloudfs.c:872-897 | refines the specification's step; object and metadata go with the name, an open descriptor keeps its bytes |
| CloudFs.CloudFs.Getattr | cloudfs/cloudfs.c:591-640 | the size reported is the length of the stored contents, on either tier |
| CloudFs.CloudFs.S3Get | cloudfs/s3_cloudfs.c:105-125 | the local file is recreated with the object's bytes, empty if there is no object |
| CloudFs.CloudFs.S3Put | cloudfs/s3_cloudfs.c:79-103 | the object holds the file's bytes and the metadata its size |
| CloudFs.CloudFs.Execute | cloudfs/cloudfs.c:345-640 | every run with one session per path answers as the specification does, keeps the invariant, and changes no name, metadata, object or handle of a path it does not mention |
| CloudFs.CloudFs.ExecutePlainly | cloudfs/cloudfs.c:345-640 | with no threshold and no stale release the answers are those of the plain map, and no name is left dangling |
| CloudFs.CloudFs.OnlyAtIsolates | cloudfs/cloudfs.c:86-108 | paths that share neither key nor place: an operation on one leaves everything that belongs to another as it was |
| CloudFs.CloudFs.OthersKept | cloudfs/cloudfs.c:479-589 | a step that stays within one path's places keeps every other file in order |
| CloudFs.Placement | cloudfs/cloudfs.c:498-573 | for every threshold a closed name is a short file on the SSD without object or metadata, or a link to metadata that gives the length of an object longer than the threshold, if and only if no stale release left it dangling |
| CloudFs.NothingLeftBehind | cloudfs/cloudfs.c:881-884 | no object and no metadata file outlives its name |
| CloudApi.PutData.Callback | cloud-lib/cloudapi.c:317-346 | gives the next chunk; offset + remainingLength stays contentLength |
| CloudApi.PutObject | cloud-lib/cloudapi.c:348-391 | for any buffer sizes the object holds exactly the file's bytes |
| CloudApi.GetCallback | cloud-lib/cloudapi.c:395-404 | appends the chunk to the output and does not abort |
| CloudApi.GetObject | cloud-lib/cloudapi.c:406-441 | for any buffer sizes the output receives exactly the object's bytes |
| ListBucket.ListData.Callback | cloud-lib/cloudapi.c:234-269 | reports the contents in order and sets the marker to the given one or the last key, cut to the array |
| ListBucket.CloudListBucket | cloud-lib/cloudapi.c:271-305 | for every service with which it ends: the result is that of so many requests; for an honest service and keys that fit, the status is good if and only if every request made completed so, and then every key above the starting marker has been reported once and in order, otherwise a prefix of them |
| ListBucket.OkExactly | cloud-lib/cloudapi.c:299-304 | after any number of requests the status is good if and only if all of them completed so |
| ListBucket.ReportsAll | cloud-lib/cloudapi.c:260-269 | what is reported is the contents of every callback made so far, those of a failing request included |
| ListBucket.LessIsFirst | cloud-lib/cloudapi.c:249-255 | the order of keys: one is a proper prefix of the other or smaller at the first difference |
| ListBucket.StartAndSize | cloud-lib/cloudapi.c:226-232 | what the starting text hides, and that a marker keeps at most 1023 characters |
| ListBucket.AfterIsExact | cloud-lib/cloudapi.c:295-302 | the keys to be listed are exactly the bucket's keys above the marker, sorted and hence without repetition |
| ListBucket.ResumesExactly | cloud-lib/cloudapi.c:249-255 | the next request continues right behind a page if and only if the page's last key fits the marker array |
| ListBucket.PageAdvances | cloud-lib/cloudapi.c:249-258 | a truncated page and what is listed from its marker make up the whole, and fewer keys are left |
| ListBucket.EndsExactly | cloud-lib/cloudapi.c:295-302 | the listing ends for every honest service if and only if every key to be listed is shorter than the marker array |
| ListBucket.Ends | cloud-lib/cloudapi.c:295-302 | the number of requests is at most one more than the number of keys above the marker |
| ListBucket.NeverPast | cloud-lib/cloudapi.c:253-254 | with one key a page, no number of requests gets past a key that is too long |
| ListBucket.CoversBucket | cloud-lib/cloudapi.c:290-292 | the listing covers the bucket if and only if no key lies at or below the text of the null pointer |
| GrowBuffer.Queue.LinkLast | s3-client/src/s3.c:378-387 | the new block joins the ring at its end; next and prev stay inverse |
| GrowBuffer.Queue.CopyIn | s3-client/src/s3.c:390-397 | as many bytes as fit are added behind what the block holds |
| GrowBuffer.Queue.Append | s3-client/src/s3.c:367-401 | the unread bytes grow by exactly the data, no listed block is empty, the ring stays well formed |
| GrowBuffer.AppendPlace | s3-client/src/s3.c:395 | data[size] continues the unread bytes if and only if nothing of the block has been read; otherwise an unread byte can be overwritten |
| GrowBuffer.Queue.UnlinkFirst | s3-client/src/s3.c:422-429 | the first block leaves the ring, whose links stay inverse |
| GrowBuffer.Queue.Read | s3-client/src/s3.c:404-432 | takes a prefix of the unread bytes: all of the first block's, or amt if that is less |
| GrowBuffer.Queue.Destroy | s3-client/src/s3.c:435-444 | terminates and frees every block exactly once |
| StdinUpload.Upload.Callback | s3-client/src/s3.c:1358-1391 | unread bytes stay equal to contentLength; the chunk is the prefix of them that the buffer and the first block allow, empty only at the end |
| StdinUpload.FillFromStdin | s3-client/src/s3.c:1549-1575 | all of standard input is buffered and counted |
| StdinUpload.SendAll | s3-client/src/s3.c:1608-1611 | one attempt delivers exactly the buffered bytes and ends with an empty chunk |
| StdinUpload.PutFromStdin | s3-client/src/s3.c:1549-1618 | what arrives is exactly what was on standard input, for any buffer sizes |
| AclText.RoundTrip | s3-client/src/s3.c:548-675 | printing then parsing gives the same list, display names wrapped, if and only if all fields are non-empty and free of white space and display names have at most 125 characters |
| AclText.ExactWithoutUsers | s3-client/src/s3.c:548-675 | the very same list comes back if and only if it names no user |
| AclText.AcceptedIsSound | s3-client/src/s3.c:579-674 | any accepted text that begins with an owner line yields words only, those of the grants within their arrays, those of the owner at most one character longer, and at most 100 grants |
| AclOverflow.OwnerFitsExactly | s3-client/src/s3.c:596-603 | an owner line is read inside the two arrays, terminators included, if and only if both its words are shorter than these |
| AclOverflow.OwnerResult | s3-client/src/s3.c:596-603 | the same seen in the result, which is never more than one character too long |
| AclOverflow.Overflows | s3-client/src/s3.c:596-603 | an owner word of 128 characters is accepted and written past its array |
| AclOverflow.ShortRunsStay | s3-client/src/s3.c:548-675 | no text without 128 characters in a row that are not white space makes the parser write past an owner array |
| AclOverflow.LongWordEscapes | s3-client/src/s3.c:596-603 | for every word, an owner line with it is read inside the arrays if and only if it is shorter than that |
| AclOverflow.PrintedInside | s3-client/src/s3.c:2222-2283 | the printed text of every list of plain words that fit is read back inside the arrays |
| AclText.ReadsBack | s3-client/src/s3.c:2222-2283 | the printed text of a list of plain words is accepted and gives the list, owner, order, grantees and permissions |
| AclText.ReadRows | s3-client/src/s3.c:2269-2283 | rows are read one by one, in order, whatever spaces precede them |
| AclText.ReadPermission | s3-client/src/s3.c:651-671 | each permission name is recognised although one is a prefix of another |
| AclText.ReadGroupName | s3-client/src/s3.c:627-641 | each group name is recognised |
| AclText.ReadTitles | s3-client/src/s3.c:586-592 | the heading is ignored |
| AclOverrun.StaysExactly | s3-client/src/s3.c:567-575 | the parser stays inside every text that ends in a given character if and only if that character is white space |
| AclOverrun.Overruns | s3-client/src/s3.c:596-614 | a grant and an owner line without their line end run over |
| AclOverrun.AddressRunsOver | s3-client/src/s3.c:611-615 | so does every address that ends the text and does not fill its array |
| AclOverrun.OwnerRunsOver | s3-client/src/s3.c:596-603 | and every owner name that does |
| AclOverrun.ParseStays | s3-client/src/s3.c:579-674 | from any point on, a text that ends in white space is never left |
| AclOverrun.PrintedStays | s3-client/src/s3.c:2222-2283 | the printed text of any list whatever is read without running over |
| AclLiterals.SpaceIs | s3-client/src/s3.c:557-575 | white space is the characters 9 to 13 and 32 |
| AclLiterals.OwnerText | s3-client/src/s3.c:596-603 | each of them separates an owner's words and ends the line |
| AclLiterals.EmailText | s3-client/src/s3.c:611-671 | and the parts of a grant |
| AclLiterals.OtherCharacter | s3-client/src/s3.c:571 | every other character stays inside its word |
| AclLiterals.PermissionTexts | s3-client/src/s3.c:651-671 | the five permissions' names, as read |
| AclLiterals.GroupTexts | s3-client/src/s3.c:627-641 | the three groups' names, as read |
| AclLiterals.KindTexts | s3-client/src/s3.c:611-626 | the three kinds of grantee, as read |
| AclLiterals.ShortTexts | s3-client/src/s3.c:579-646 | the empty text is accepted; an unknown kind or group, and a kind with nothing behind it, are rejected |
| AclLiterals.CutTexts | s3-client/src/s3.c:596-649 | an owner or a user without a second word, and a grantee without a permission, are rejected |
| AclLiterals.UnsetText | s3-client/src/s3.c:649-674 | an unknown permission is left unset and the text goes on where it stands |
| AclLiterals.RowTexts | s3-client/src/s3.c:2237-2283 | the names of kinds, groups and permissions, as printed |
| AclLiterals.SampleText | s3-client/src/s3.c:2222-2283 | a printed text in full |
| AclLiterals.AtMostAHundred | s3-client/src/s3.c:605-607 | the text of a list of plain words that fit is accepted with at most 100 grants and rejected with more |
| AclText.TextFits | s3-client/src/s3.c:2347-2348 | the text of any list that fits the arrays fits the buffer it is read into, terminator included |
| AclText.LineShrinks | s3-client/src/s3.c:579-674 | every round of the parser's loop consumes text |
| AclCommands.PrintAcl | s3-client/src/s3.c:2222-2283 | the printing loop produces the specified text |
| AclCommands.Parser.Copy | s3-client/src/s3.c:567-575 | the copying loop takes the next word, or reports missing text or an overrun, as specified |
| AclCommands.Parser.OwnerLine | s3-client/src/s3.c:596-603 | reads the owner as specified, failing or overrunning exactly where the specification does |
| AclCommands.Parser.GranteeText | s3-client/src/s3.c:611-646 | reads the grantee as specified |
| AclCommands.Parser.PermissionText | s3-client/src/s3.c:651-671 | reads the permission as specified |
| AclCommands.Parser.Convert | s3-client/src/s3.c:548-675 | the whole parser loop terminates with the specified outcome and the specified list |

## Left out

* Logging (`write_log`, `log_dedupe_compute_cost`), MD5 sums, option parsing and FUSE registration: input and output only.
* libs3 itself (HTTP, XML, signatures): it is the map from keys to bytes and the order of callbacks that `include/libs3.h` describes. System and S3 calls succeed, except that a get of a missing object fails and a listing request may fail.
* The lock service: one session per path at a time, and reads, writes and releases only within one, is all the model requires of its caller (`FileSpec.Allowed`).
* Opening a path that has no file: the plain map creates it, as the code does. Such an open does not arrive, since the kernel looks a path up with getattr first and, as create is not registered (`cloudfs/cloudfs.c:1033-1034`), sends mknod before it opens a new file.
* The comparison of release's own result with the plain map's: FUSE discards it.
* `cloudfs_truncate`, which follows the link and so changes a metadata file, and the directory operations, rename, chmod and other stubs.
* `O_APPEND` and `O_TRUNC`, file modes, time stamps and the rest of `struct stat`; the metadata file holds the size only.
* The conversion of a handle to 32 bits in `fi->fh`, malloc failure and null arguments.
* `ffs64` (it calls the wrong helper and nothing uses it).
* The conversion of the byte count and of the driver's running length to a C int; buffers shorter than 2^32 bytes are covered as natural numbers.
* Machine words are natural numbers below 2^64 or 2^32 with explicit truncation; shifts are taken one place at a time.
* Average segment sizes from 2^31 up make the source's mask shift undefined in C; the model takes the two's-complement result.
* Block arrays of the upload buffer lie inside their struct and are values in the model. Upload retries after a partial attempt.
* GrowBuffer.Queue.Append: requires that nothing of the last block has been read, because otherwise the write goes to the wrong place (`GrowBuffer.AppendPlace`); what the buffer then holds is not modelled.
* ListBucket.CloudListBucket: requires a service with which the listing ends, since there is nothing to say about one with which it does not; `ListBucket.EndsExactly` says for which buckets every service is one.
* Text is sequences of ASCII characters without the terminator; what a write past an array or a copy past the terminator does to other memory is not modelled, nor a text that fills the 65536 bytes it is read into. The grant count after a failed parse is not stated.
* `get_logging`, whose default case prints another group's name.
* In the listing, libs3's use of the marker array while callbacks overwrite it, sizes and dates, and the uninitialised start of `keyCount`.
* Linking deduplication to the store: the file system never calls the segmenter.
