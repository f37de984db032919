# Ferretptimize: verified models of its algorithms

Ferretptimize is a C server that compresses images. This project models the parts of it that hold algorithms rather
than calls into libraries, and proves what each is for:

- **The job and result queue** (`RingQueue`, `QueueTheorems`): a bounded lock-free ring shared by any number of
  producers and consumers. Every atomic access is one step of a state machine, so a theorem about every run is a
  theorem about every interleaving. The queue keeps its slots exclusive, refines a FIFO queue with its
  compare-and-swaps as linearisation points, and fails only for the reasons it gives. It is safe exactly when it has
  two slots or more; `src/main.c:92-95` asks for at least two.
- **The colour quantiser** (`Histogram`, `MedianCut`, `Quantizer`): histogram, median cut with in-place sorting,
  weighted palette, nearest entry for each pixel. The boxes stay a partition, there are exactly as many as asked for
  when there are that many colours, the error of every pixel is bounded by the box that holds its colour, and nothing
  is lost exactly when the pixel values fall in different buckets and are few enough.
- **Hashing and tokens** (`Sha256Spec`, `Sha256Laws`, `Sha256Example`, `Sha256Stream`, `Base64`, `Text`, `AccessToken`,
  `KeySearch`, `TokenPayload`, `TokenClaims`, `TokenTheorems`): the streaming hash refines FIPS 180-4 (sections 5.1.1,
  5.2.1, 5.3.3 and 6.2.2) for every way of cutting up the message; that it is this function is shown by laws of its parts,
  by its constants being the roots of primes, and by the digest of the standard's one-block example. HMAC is that of RFC
  2104 section 2 and base64url that of RFC 4648 section 5. Of all tokens exactly those are accepted that are signed and
  name a user and an expiry to come, and for an issued token it is stated when it is accepted and what comes back of the
  user.
- **The form parser** (`Multipart`, `FormRoundTrip`): parsing inverts rendering as in RFC 2046 section 5.1.1, with the
  exact condition under which every field comes back; every body is parsed to an end, and accepted exactly when its parts
  lead to one.
- **Daily quotas** (`Quota`): the 64-slot table refines a map per day while the days of the requests do not go back, and
  then a request is refused exactly when the user's admitted requests of the day leave no room for it.
- **Result routing** (`ResultRouting`): over any interleaving of waiting requests no result is lost from the count,
  returned twice or returned to the wrong request, and one popped for another job is kept unless the stash is full.
- **Progress channels** (`ProgressChannel`, `ProgressRegistry`, `ProgressLifecycle`, `ProgressTheorems`): the linked
  event list is a FIFO stream with an end, and the open-addressed table is a finite map despite its holes. Acquiring and
  releasing are taken apart into one step for each time a lock is held; over every interleaving of those steps a channel
  is destroyed once, after its last reference has been dropped, as long as no job that is in the table is registered
  again and no reference is counted to a channel whose last one has been dropped.
- **Crop and trim** (`ImageOps`): trimming cuts to the least box with all opaque pixels, once and for all; crops compose.
- **Encoding-time averages** (`EtaTable`): the table in memory is the replay of its log exactly while there are at most
  eight keys; the time predicted then is the mean over all measurements of the key, scaled to the job.

Code that updates things step by step (arrays, classes, loops) is modelled by methods over arrays and objects, each
proved to compute a function of its inputs; the theorems are about those functions. The concurrent parts are state
machines over values. Machine widths are written out where they matter: the 64-bit bit length of SHA-256, the size
subtraction of the form parser, the quota sums, `strtoll`.

Nine properties one might expect do not hold of the code. For each there is an input that shows it and the exact
condition, for all inputs, under which the code does meet it:

- a queue is safe in every run if and only if it has two slots or more (`SafeIffTwoSlots`, `SecondPushOverwrites`);
- an issued token is accepted until it expires if and only if no user field ends in certain letters and the id is not 0
  (`AcceptedExactlyWhen`, `IssuedAndRejected`);
- an accepted token gives back the user it was issued to if and only if email and name fit their escape buffers, no string
  holds a line break or tab, and the provider is not `name` and does not end in a quote and `name`, as then the email is
  read for the name (`ReadBackExactlyWhen`, `MisreadName`);
- a form's fields all come back if and only if there is room and each fits, which leaves out names that end in
  `filename=` (`RoundTripExactlyWhen`, `MisreadFilename`);
- the slice of a part lies in the body if and only if no delimiter directly follows the part's header
  (`SliceInBodyExactlyWhen`, `WrappedSize`);
- lookups are exact if and only if no job is registered again while it is in the table; a client can cause that with
  the job id it sends, `src/server.c:898-899` and `2550` (`FindAfterAnyHistory`, `ReleasedButFound`);
- a channel is destroyed once, and is then neither found nor held, if and only if no job is registered again while it is
  in the table and no acquire counts its reference to a channel whose last one has been dropped. The second can happen
  because `src/progress.c:223-231` drops the last reference in one critical section and takes the channel out of the
  table in another, and `src/progress.c:199-204` finds a channel in one and counts the reference in another; a client
  can ask for any job's channel at any time, `src/server.c:1742` (`StepKeepsInv`, `DestroyedOnceExactlyWhen`,
  `SafeExactlyWhen`, `SafeRunExactlyWhen`, `AcquiredWhileReleased`, `CountedWhenGone`);
- the quota table agrees with a per-day map if and only if the days of the requests do not go back; the day is read
  before the lock is taken, `src/server.c:650-652`, so around midnight they can (`QuotaOverAnyHistory`,
  `OverLimitWhenDayGoesBack`);
- the table of averages is the replay of its log if and only if there are at most eight keys (`AgreesExactlyWhen`,
  `NinthKeyDiffers`).

Assumptions throughout: sequentially consistent atomics, allocation succeeds, pointers that the code tests for NULL are
not NULL, and queue positions do not wrap. The quantiser is modelled for fewer than 2^32 pixels, the range of its counters.

The quantiser's comparison reads the channel to sort by from a static variable, `src/compress_png.c:296`, which every
worker thread writes without a lock. While two quantisations overlap, each may sort by the other's channel, so that a box
is permuted but not sorted. Partition, number of boxes, error bound and the lossless case hold in any order of the
colours within a box (`AnyOrderPartitions`, and the theorems of `Quantizer`, whose hypotheses say nothing about order);
that the halves of a cut are separated (`CutSeparates`) needs the sorting and so holds only without overlap.

Check everything with `dafny verify dfyconfig.toml`.

## Model

| member | source | states |
|---|---|---|
| RingQueue.Init | src/queue.c:6-30 | at least one slot, and as many as were asked for; both indices 0, slot i free for position i, no thread inside a call |
| RingQueue.StepInv | src/queue.c:46-95 | every atomic step of any thread keeps the invariant tying indices, sequence numbers, slot owners, history and threads together |
| RingQueue.ReachableInv | src/queue.c:40-96 | the invariant holds after any actions of any number of threads, from two slots on |
| QueueTheorems.SafeInEveryRun | src/queue.c:46-95 | head <= tail <= head + capacity; each current position's sequence number is free, published or recycled; two threads between their CAS and their store own different slots |
| QueueTheorems.SeqNeverDecreases | src/queue.c:55-95 | no step of any run lowers a slot's sequence number |
| QueueTheorems.LinearisesToFifo | src/queue.c:53-87 | the successful CAS steps of any run, in order, are a legal history of a FIFO queue whose items and removals are what the run has claimed |
| QueueTheorems.ClaimsHappenInsideCalls | src/queue.c:52-89 | only a successful CAS of a thread that is inside push(v) or pop extends the history, with that call's operation |
| QueueTheorems.AccountedRun | src/queue.c:53-90 | in any run each claimed position is either completed exactly once or still owned by one thread |
| QueueTheorems.ResultsAreFifo | src/queue.c:53-90 | every pop that returned gave the value of the push at the same position, no position is returned twice, and when no call is in progress the completed pushes and pops are exactly the claimed ones |
| QueueTheorems.FailuresAreHonest | src/queue.c:49-64 | at its sequence load, pop gives up exactly when its position is the head and unpublished, push exactly when its position is the tail and the position a lap back is not recycled |
| QueueTheorems.RetriesMeanProgress | src/queue.c:52-93 | a call goes round its loop, other than by a spurious CAS failure, only after its index has moved on |
| QueueTheorems.AloneRuns | src/queue.c:46-95 | a call alone is always as far as some number of its accesses, however often its CAS fails spuriously, and is through once the accesses outnumber the failures by as many as it needs |
| QueueTheorems.QuiescentPush | src/queue.c:40-67 | with no other call in progress, and whatever the CAS's spurious failures: push returns once its steps are 2 (full) or 5 more than the failures; when it has, it has failed on a full queue, changing nothing, or appended its value |
| QueueTheorems.QuiescentPop | src/queue.c:69-96 | with no other call in progress, and whatever the CAS's spurious failures: pop returns once its steps are 2 (empty) or 5 more than the failures; when it has, it has failed on an empty queue, changing nothing, or removed and returned the first value |
| QueueTheorems.SafeIffTwoSlots | src/queue.c:7-9 | bounds and exclusive slots in all runs if and only if two or more slots were asked for |
| QueueTheorems.SecondPushOverwrites | src/queue.c:48-57 | with one slot, two pushes in a row both succeed and the second value replaces the first |
| Histogram.Accumulate | src/compress_png.c:444-455 | for each of the 65536 buckets, how many pixels fall in it and the sums of their channels |
| Histogram.CountOccupied | src/compress_png.c:457-462 | the number of buckets with a pixel is the number of histogram colours |
| Histogram.BuildColors | src/compress_png.c:457-494 | the array lists, in bucket order, the mean and weight of every occupied bucket and nothing else |
| Histogram.Mean | src/compress_png.c:486-492 | the mean of every channel, truncated |
| Histogram.SameBucket | src/compress_png.c:444-455 | two pixels share a bucket exactly when they agree on the top four bits of every channel |
| Histogram.MeanStaysInBucket | src/compress_png.c:446-492 | a bucket's mean is at most 15 from each of its pixels on every channel |
| Histogram.UniformBucket | src/compress_png.c:486-492 | a bucket whose pixels are all equal has that pixel as its mean |
| Histogram.TotalIsPixelCount | src/compress_png.c:444-494 | the weights of the histogram colours add up to the number of pixels |
| MedianCut.Recalc | src/compress_png.c:264-294 | the recorded minima and maxima bound every colour of the box and are attained, and the total is the sum of its weights; an empty box is left alone |
| MedianCut.Compare | src/compress_png.c:298-318 | orders by the channel, and equal channels by weight, heaviest first |
| MedianCut.QSort | src/compress_png.c:554 | the box's range becomes sorted by the comparison, if its channel does not change meanwhile, and a permutation of itself; the rest of the array is untouched |
| MedianCut.ChooseBox | src/compress_png.c:515-538 | the last of the widest boxes with two or more colours, or -1 exactly when there is none |
| MedianCut.SplitPoint | src/compress_png.c:556-567 | the cut lies strictly inside the box; the colours before the last one of the left part weigh less than half, and the left part weighs at least half unless only one colour is left for the right one |
| MedianCut.FindSplit | src/compress_png.c:556-567 | the scan finds the first position at which half of the weight is reached, moved inside the box |
| MedianCut.CutOnce | src/compress_png.c:540-576 | one turn sorts only the chosen box, on its widest channel, splits it in two tight boxes, and leaves every other box as it was |
| MedianCut.CutKeepsPartition | src/compress_png.c:540-576 | whatever order the box's colours were brought into, after a cut the boxes are still non-empty, disjoint, tight and cover all colours, and their weights add up to the same total |
| MedianCut.AnyOrderPartitions | src/compress_png.c:508-577 | over any run of cuts, with the boxes' colours in any order, the boxes partition a permutation of the colours and each cut adds one |
| MedianCut.CutSeparates | src/compress_png.c:554-576 | after a cut of a sorted box nothing in the left half exceeds anything in the right half on the channel of the widest range |
| MedianCut.CutBalances | src/compress_png.c:556-567 | after a cut the left part without its last colour weighs less than half of the box, and the right part is one colour or weighs at most half |
| MedianCut.Pigeonhole | src/compress_png.c:514-538 | if no box can be split there are as many boxes as colours |
| MedianCut.SplittableExists | src/compress_png.c:514-538 | fewer boxes than colours means that one can be split, so the early break is not taken |
| MedianCut.SplitBoxes | src/compress_png.c:501-577 | the loop ends with exactly the smaller of target and colour count boxes, which partition a permutation of the colours, and its stages are successive cuts, each of a box sorted on its widest channel |
| Quantizer.EntryWithinBox | src/compress_png.c:579-600 | a palette entry is within its box's bounds on every channel |
| Quantizer.AverageBox | src/compress_png.c:583-599 | the entry is the weighted mean of the box's colours |
| Quantizer.AverageIsMean | src/compress_png.c:583-599 | each channel of an entry is the mean, truncated, of that channel over all the pixels that the box's colours stand for |
| Quantizer.BuildPalette | src/compress_png.c:579-600 | one entry for each box, in order |
| Quantizer.DistBound | src/compress_png.c:612-616 | a squared distance is at most 260100, so it fits and is below the starting value |
| Quantizer.Nearest | src/compress_png.c:609-622 | the least index among the entries at the least distance |
| Quantizer.AssignPixels | src/compress_png.c:602-623 | every pixel gets the index of its nearest entry, as a byte |
| Quantizer.Quantize | src/compress_png.c:411-623 | None exactly for an image without pixels; otherwise partition, box count, palette and indices as above, through a run of cuts from the histogram, each of a sorted box |
| Quantizer.PaletteSize | src/compress_png.c:423-514 | the palette has one colour for each occupied bucket but no more than asked for, where nothing or less asked for means 128 and more than 256 means 256 |
| Quantizer.BoxTotalsCountPixels | src/compress_png.c:279-293 | the recorded totals of the boxes add up to the number of pixels |
| Quantizer.PixelErrorBounded | src/compress_png.c:411-623 | for every image and pixel the squared distance to the entry chosen is at most the sum over the channels of (range of the box with the pixel's histogram colour + 15) squared |
| Quantizer.LosslessExactlyWhen | src/compress_png.c:411-623 | every pixel is reproduced exactly if and only if different pixel values fall in different buckets and there are at most as many as the number asked for between 1 and 256, 128 for less and 256 for more |
| Sha256Spec.PadShort | src/auth.c:112-116 | FIPS padding when the length fits in the last partial block |
| Sha256Spec.PadLong | src/auth.c:117-124 | FIPS padding when the length needs a block of its own |
| Sha256Spec.ScheduleAt | src/auth.c:46-51 | every word of the message schedule follows from those before it |
| Sha256Laws.ChChooses | src/auth.c:37 | bit by bit, the first word chooses between the other two |
| Sha256Laws.MajVotes | src/auth.c:38 | where two words agree the majority is with them, whichever two they are |
| Sha256Laws.H0IsSquareRoots | src/auth.c:85-96 | the initial value is the first 32 bits of the fractions of the square roots of the first eight primes |
| Sha256Laws.KIsCubeRoots | src/auth.c:25-34 | the constant of each round is the first 32 bits of the fraction of the cube root of its prime |
| Sha256Laws.HmacMeans | src/auth.c:149-179 | for keys of any length, the inner pad is the filled key combined with 0x36 byte by byte and the outer with 0x5c |
| Sha256Example.DigestOfAbc | src/auth.c:25-147 | the digest of "abc" is that of FIPS 180-4, through all 64 words and rounds |
| Sha256Stream.ExpandBlock | src/auth.c:44-52 | the 64 words are the FIPS message schedule of the block |
| Sha256Stream.RunRounds | src/auth.c:53-73 | the loop is the 64 FIPS rounds |
| Sha256Stream.Context.constructor | src/auth.c:85-96 | a fresh context has been fed nothing |
| Sha256Stream.Context.Transform | src/auth.c:44-83 | the state becomes the compression of the state with the buffered block |
| Sha256Stream.Context.Update | src/auth.c:98-107 | whatever the chunk's length, the context then stands for everything fed before followed by the chunk |
| Sha256Stream.Context.PadBranches | src/auth.c:110-124 | in both branches, what has been hashed and the buffer together are the padded message without its length |
| Sha256Stream.Context.Final | src/auth.c:109-147 | the digest is SHA-256 of everything fed, also when the bit length wraps at 2^64 |
| Sha256Stream.HashChunks | src/auth.c:98-147 | for every way of cutting a message into updates the digest is that of the whole message |
| Sha256Stream.HmacSha256 | src/auth.c:149-179 | HMAC of RFC 2104 section 2 for keys of any length |
| Base64.StandardLength | src/server.c:1347 | the standard encoding has 4 * ceil(n / 3) characters |
| Base64.ServerEncode | src/server.c:1345-1385 | the server's encoder computes the RFC 4648 section 4 encoding |
| Base64.ProgressEncode | src/progress.c:353-386 | the progress encoder computes the same encoding |
| Base64.UrlLength | src/auth.c:258-302 | the URL form has ceil(4n / 3) characters |
| Base64.UrlAlphabetOnly | src/auth.c:291-300 | the URL form uses only the alphabet of RFC 4648 section 5: no padding, no dot |
| Base64.UrlIsMappedStandard | src/auth.c:258-302 | the URL form is the standard form with two characters mapped and the padding stripped |
| Base64.EncodeUrl | src/auth.c:258-302 | the encoder, which maps and strips in place, computes the URL form |
| Base64.Decode | src/auth.c:304-370 | the decoder computes the decoding function on every input, well-formed or not |
| Base64.DecodeInvertsEncode | src/auth.c:258-370 | decoding an encoding gives back the bytes |
| Base64.Examples | src/server.c:1345-1385 | the examples of RFC 4648 section 10 for each kind of ending |
| Base64.LastSymbols | src/auth.c:291-300 | the last two symbols, in which the two alphabets differ |
| Text.StrtollReadsDecimal | src/auth.c:694-800 | reading a printed number followed by something other than a digit gives the number, cut off at the ends of the 64-bit range |
| Text.StrtollReadsNegative | src/auth.c:781-806 | the same after a minus sign |
| AccessToken.EscapeJson | src/auth.c:638-677 | the buffer holds the escaped text, cut where fewer than three bytes are left, and its terminator |
| AccessToken.EscapeHidesQuotes | src/auth.c:649-653 | every quote in escaped text has a backslash before it |
| AccessToken.EscapeAddsNoExp | src/auth.c:647-675 | escaping and cutting never create the letters exp |
| AccessToken.BuildAccessToken | src/auth.c:679-752 | a token exactly when the secret is not empty and payload and token fit; its text is header, payload and HMAC in base64url with dots between |
| AccessToken.ConstTimeEqual | src/auth.c:181-187 | true exactly for equal byte strings |
| AccessToken.CopyValue | src/auth.c:831-837 | the buffer gets the quoted value without its backslashes, up to the closing quote or the room there is, and its terminator |
| AccessToken.ReadString | src/auth.c:808-839 | the value of the first such key, or nothing |
| AccessToken.ValidateAccess | src/auth.c:841-929 | the user that the token names, exactly when the signature is the HMAC of what precedes it and the payload has an unexpired exp and a positive sub |
| TokenTheorems.ValidExactlyWhen | src/auth.c:841-929 | of all tokens exactly those are accepted, and for exactly that user, that are three parts of which the last decodes to the HMAC of the first two and the second to a payload with the user's id and strings and an expiry that is not past |
| TokenTheorems.ValidateParts | src/auth.c:849-894 | for any three parts: rejected unless the last decodes to the HMAC of the others, and then decided by the payload |
| TokenTheorems.TwoDotsNeeded | src/auth.c:849-858 | a token with fewer than two dots is rejected |
| TokenTheorems.TokenCarries | src/auth.c:704-746 | a built token is three parts that decode to the header, the payload and the HMAC of the first two parts |
| TokenTheorems.SignatureHolds | src/auth.c:849-893 | a built token passes the signature check under the same secret and yields its payload |
| TokenPayload.KeyFound | src/auth.c:785-788 | where the search for the exp key stops in a built payload: at the first field that exposes it, else where it belongs |
| TokenPayload.ParsedExp | src/auth.c:781-806 | the expiry is read back, or the parse fails, according to whether a user field exposes the key |
| TokenPayload.ParsedSub | src/auth.c:781-806 | the id is read back, cut off at 2^63 - 1 |
| TokenClaims.BackExactlyWhen | src/auth.c:638-839 | a string that is escaped into one buffer and read into another comes back unchanged if and only if it fits both and holds no line break, carriage return or tab |
| TokenClaims.ProviderRead | src/auth.c:808-905 | the provider of a built payload is read back from what was escaped |
| TokenClaims.EmailRead | src/auth.c:808-906 | so is the email, even if the provider exposes its key |
| TokenClaims.NameRead | src/auth.c:808-907 | so is the name, unless the provider exposes its key: then it is the email that is read |
| TokenTheorems.IssuedExactlyWhen | src/auth.c:680-749 | a token is issued if and only if there is a secret and the payload has at most 322 characters, so the test of the payload against its own buffer never decides |
| TokenTheorems.PayloadLength | src/auth.c:692-699 | the payload is 66 characters longer than its two numbers and its escaped fields |
| TokenTheorems.AcceptedExactlyWhen | src/auth.c:679-929 | with a secret and a payload that fits, a token is issued, and it is accepted if and only if no escaped field is exp or ends in a quote and exp, the id is not 0 and the expiry is not past; it then names the user as read back |
| TokenTheorems.IssuedAndRejected | src/auth.c:785-802 | for a user named exp, under any secret, a token is issued and rejected long before it expires |
| TokenTheorems.ReadBackExactlyWhen | src/auth.c:638-907 | the user read back is the user issued to if and only if the id is below 2^63, email and name fit their escape buffers, no string holds a line break, carriage return or tab, and the provider does not expose the key of the name unless name and email are equal |
| TokenTheorems.MisreadName | src/auth.c:808-907 | a user whose provider is name is read back with the email as name |
| TokenTheorems.TokenRoundTrip | src/auth.c:679-929 | for ids in 1..2^63-1, fields without exp and a payload that fits, a token is issued, is accepted until it expires, gives back the id, and gives back the whole user if and only if the above holds |
| Multipart.MemSearch | src/server.c:693-703 | the first occurrence of the needle from the cursor on, none exactly when there is none |
| Multipart.ReadPartHeader | src/server.c:730-775 | the line loop computes the part of the header text up to its first NUL |
| Multipart.CopyQuoted | src/server.c:734-759 | the buffer gets the quoted value cut to its size, and keeps its content when there is none |
| Multipart.ParseMultipart | src/server.c:705-806 | on every body the loop ends and fills the array with the parts of the parse, or fails exactly when the parse does |
| Multipart.EveryBody | src/server.c:716-804 | on every body the parts returned have names, fit their buffers, are in order; each comes from a delimiter line and the header up to the first blank line after it, and runs to the next delimiter less its line break |
| Multipart.SliceInBodyExactlyWhen | src/server.c:785-793 | on every body, the slice of each part returned lies in the body if and only if no delimiter directly follows the blank line that ends its header |
| Multipart.AcceptedExactlyWhen | src/server.c:713-806 | a body is accepted if and only if its parts, each from a delimiter line over a blank line to the next delimiter after a line break, lead from its start to a closing delimiter or to where there is none any more |
| FormRoundTrip.NameFound | src/server.c:733-745 | the name read is the name rendered |
| FormRoundTrip.FilenameFound | src/server.c:747-759 | the file name read: none, the one rendered, or fixed text when the name ends in filename= |
| FormRoundTrip.HeaderComesBack | src/server.c:730-772 | a rendered header is read as its name, file name and content type, cut to their buffers |
| FormRoundTrip.ParseOfRender | src/server.c:705-806 | parsing a rendered form, with preamble and epilogue, gives its named fields in order, as many as fit, each with exactly its data |
| FormRoundTrip.RoundTripExactlyWhen | src/server.c:705-806 | every field comes back unchanged if and only if there is room for all and each fits its buffers and is not misread |
| FormRoundTrip.LongBoundaryLosesAll | src/server.c:709-711 | with a boundary of more than 125 characters no field comes back |
| FormRoundTrip.UnclosedIsRejected | src/server.c:783-788 | a form that breaks off in the data of a field is rejected |
| FormRoundTrip.MisreadFilename | src/server.c:747-759 | a one-field form whose field is named filename= is parsed, but not to its field |
| FormRoundTrip.UnbrokenWraps | src/server.c:784-793 | for every boundary and field header, a form whose delimiter directly follows the header is accepted with a part of size 2^64 - 2 |
| FormRoundTrip.WrappedSize | src/server.c:784-793 | the shortest such form, written out |
| Quota.UsageTable.TrackExpertUsage | src/server.c:646-691 | new table and verdict are those of the tracking function of the old table |
| Quota.TrackRefines | src/server.c:646-691 | one request: the table holds the latest day's map afterwards if and only if the request is not for an earlier day or nobody has a slot on that day; a request that is not late gets the verdict of the ideal map |
| Quota.BusyExactlyWhen | src/server.c:654-671 | "Server busy" if and only if all 64 slots are held by other users on the request's day; for the latest day, if and only if 64 others have been served |
| Quota.LateRequest | src/server.c:656-665 | a request for an earlier day leaves the latest day's map intact if and only if nobody has a slot on that day |
| Quota.QuotaOverAnyHistory | src/server.c:646-691 | over every history from an unused table, the table holds the latest day's map and gives its verdicts throughout if and only if the days do not go back; then today's entries are a prefix with distinct users, no total is over 500 jobs or 2 GiB, and each is the sum of that user's admitted requests |
| Quota.VerdictExactlyWhen | src/server.c:673-688 | while the days do not go back, a tracked request that finds a slot is refused exactly when it would bring what the user's admitted requests of the day asked for over 500 jobs or else over 2 GiB |
| Quota.OverLimitWhenDayGoesBack | src/server.c:650-688 | a request for the day before, tracked in between, lets a user be admitted for 800 jobs in one day |
| ResultRouting.ResultCache.Take | src/server.c:1782-1795 | removes and returns the first result for the job, or changes nothing when there is none |
| ResultRouting.ResultCache.Store | src/server.c:1797-1814 | puts the result in the first free slot, or gives it up |
| ResultRouting.FreedExactlyWhenFull | src/server.c:1801-1813 | a result is freed if and only if all slots are taken; one that was stored can be taken |
| ResultRouting.StashStep | src/server.c:1797-1881 | in every run, a result popped for another job is freed if and only if all 16 slots are taken, and otherwise is in the stash afterwards, in a slot that was free |
| ResultRouting.LookStep | src/server.c:1871-1874 | in every run, the look into the stash returns a result if and only if there is one for the job, the first such one, which leaves the stash |
| ResultRouting.PopStep | src/server.c:1876-1880 | in every run, a pop takes the oldest result and returns it if and only if it is the job's own |
| ResultRouting.StashedUntilReturned | src/server.c:1782-1795 | a result stays in the stash until it is returned to a waiter for its job |
| ResultRouting.EveryRunConserves | src/server.c:1870-1886 | over every interleaving a result has been pushed as often as it is queued, stashed, held, returned or freed, and a waiter returns its own job's |
| ResultRouting.NothingReturnedTwice | src/server.c:1870-1886 | with results pushed once each, one that is returned was pushed and is nowhere else: not with another waiter, freed, queued or stashed |
| ProgressChannel.Channel.Push | src/progress.c:234-256 | an open channel's list grows by the event at its end, a closed one is unchanged; the list stays well formed |
| ProgressChannel.Channel.NextEvent | src/progress.c:258-282 | takes the first event, if any; the flag is false exactly when the channel is closed and now drained |
| ProgressChannel.Channel.Close | src/progress.c:288-296 | only closes |
| ProgressChannel.Channel.FreeEvents | src/progress.c:135-145 | the walk meets every linked event once, in order |
| ProgressChannel.StreamConserves | src/progress.c:234-296 | events received followed by events still linked are those pushed before the close, in order |
| ProgressChannel.EndOfStream | src/progress.c:276-278 | the flag is false exactly when the channel is closed and this call completes all that was pushed before the close |
| ProgressRegistry.ProbeVisitsOnce | src/progress.c:158-160 | the probe visits every slot in exactly one of its steps |
| ProgressRegistry.FindsWhatIsThere | src/progress.c:176-196 | on a table that holds a map, lookup answers as the map does, despite holes |
| ProgressRegistry.FullExactlyWhen | src/progress.c:157-171 | a job with an id finds no room if and only if as many jobs are live as there are slots |
| ProgressRegistry.RegisterRefines | src/progress.c:152-174 | on a table that holds a map, registering adds the job to it, or changes nothing when full, if and only if the job was not live or there was no room |
| ProgressRegistry.ForgetRefines | src/progress.c:84-98 | forgetting a job removes it from the map |
| ProgressRegistry.FindAfterAnyHistory | src/progress.c:84-196 | over every history of registering and forgetting, lookups answer as the ideal map throughout, also after any one job more is forgotten, if and only if no job is registered again while live |
| ProgressLifecycle.StepKeepsInv | src/progress.c:152-232 | each step of a register, acquire, retain or release, between any others, keeps the invariant (in the table exactly while referenced or about to be taken out; on its way out or destroyed, once, exactly when not referenced) if and only if it neither registers a job that is in the table nor counts a reference to a channel whose last one has been dropped |
| ProgressLifecycle.FoundExactlyWhileHeld | src/progress.c:176-231 | a job's channel is found if and only if it has a reference left, or its last holder is between dropping it and taking it out of the table |
| ProgressTheorems.RefsAreGivenMinusBack | src/progress.c:152-232 | over every legal run a channel's counter is the references given out less those given back |
| ProgressTheorems.DestroyedOnceExactlyWhen | src/progress.c:152-232 | over every legal interleaving: after each step channels have been destroyed at most once, are found exactly while a reference is out or the last holder is about to take them out, and are on their way out or destroyed exactly when none is, if and only if no job that is in the table is registered again and no reference is counted to a channel whose last one has been dropped |
| ProgressTheorems.SafeExactlyWhen | src/progress.c:152-232 | a step is safe (in no continuation without such a step is a channel destroyed twice, or found or held once destroyed) if and only if it does neither of the two |
| ProgressTheorems.SafeRunExactlyWhen | src/progress.c:152-232 | the same over every legal run: no part of it has such a continuation if and only if it takes no such step |
| ProgressTheorems.ReleasedButFound | src/progress.c:152-232 | with two slots, a job registered twice and its first channel released, a lookup returns the destroyed channel |
| ProgressTheorems.AcquiredWhileReleased | src/progress.c:198-232 | an acquire that finds the channel between 227 and 229 of its last release: the channel is destroyed while held, and when that reference is released, a second time |
| ProgressTheorems.CountedWhenGone | src/progress.c:198-232 | an acquire that finds the channel while it is held, and increments after the whole release, counts a reference to a destroyed channel |
| ProgressLifecycle.Registry.constructor | src/progress.c:66-82 | an empty table of the size asked for, 64 for none |
| ProgressLifecycle.Registry.Register | src/progress.c:152-174 | NULL exactly for id 0 or a full table; else a new channel with one reference enters the table |
| ProgressLifecycle.Registry.FindChannel | src/progress.c:176-196 | the lookup's answer, and a channel found is noted as not yet counted |
| ProgressLifecycle.Registry.Probing | src/progress.c:182-194 | the probing loop computes the lookup |
| ProgressLifecycle.Registry.CountFound | src/progress.c:203-205 | the channel found gets one more reference |
| ProgressLifecycle.Registry.Acquire | src/progress.c:198-207 | undisturbed, acquiring is the lookup and then the counting |
| ProgressLifecycle.Registry.Retain | src/progress.c:209-216 | one more reference |
| ProgressLifecycle.Registry.Drop | src/progress.c:222-227 | one reference less; the caller goes on to destroy exactly if it was the last |
| ProgressLifecycle.Registry.Unlink | src/progress.c:229 | the first entry of the channel's job leaves the table |
| ProgressLifecycle.Registry.ForgetJob | src/progress.c:84-98 | the first entry of the job, in slot order, becomes free and nothing else changes |
| ProgressLifecycle.Registry.Free | src/progress.c:138-151 | the channel is destroyed and its linked events are freed, each once |
| ProgressLifecycle.Registry.Release | src/progress.c:218-232 | undisturbed, releasing is the drop and, at the last reference, the unlinking and the freeing |
| ImageOps.Clip | src/image_ops.c:18-42 | what a crop takes lies inside the image |
| ImageOps.Image.Crop | src/image_ops.c:17-68 | succeeds exactly when something is left; then the image is that part, pixel for pixel, and the report has old and new size |
| ImageOps.Image.CopyBox | src/image_ops.c:44-54 | the row copies fill the new buffer with the box of the old one |
| ImageOps.Image.Scan | src/image_ops.c:90-112 | finds whether there is an opaque pixel, and then the box that holds all with one on each side |
| ImageOps.Image.Trim | src/image_ops.c:70-129 | fails only for an image without pixels; else the image becomes its trim box, and the report says whether it changed |
| ImageOps.TrimBoxIsLeast | src/image_ops.c:90-121 | the trim box lies within every box with all opaque pixels |
| ImageOps.TrimBoxIsUnique | src/image_ops.c:114-121 | there is one trim box, also for images without opaque pixels |
| ImageOps.OpaqueExactlyWhen | src/image_ops.c:76-101 | a pixel counts as opaque exactly when its alpha exceeds the clamped tolerance times 255 by more than a half |
| ImageOps.TrimKeepsOpaque | src/image_ops.c:100-124 | a pixel is opaque in the image exactly when its place in the trimmed image is |
| ImageOps.TrimAfterCrop | src/image_ops.c:17-129 | a crop that cuts off no opaque pixel leaves the same to trim |
| ImageOps.TrimIsIdempotent | src/image_ops.c:70-129 | trimming twice is trimming once |
| ImageOps.CropTakes | src/image_ops.c:18-42 | a crop takes exactly the pixels of the image inside its box, moved to start in the image, and fails if and only if there are none |
| ImageOps.NestedCrops | src/image_ops.c:17-68 | a crop of a crop takes nothing if and only if the second box is empty or starts beyond the first as clipped; otherwise it is the one crop of the composed, clamped box |
| EtaTable.Eta.LoadLog | src/worker.c:331-378 | the table becomes the replay of the log |
| EtaTable.Eta.LoadRecord | src/worker.c:355-375 | one record is added to its key's entry, or to a free one, or dropped |
| EtaTable.Eta.UpdateAverage | src/worker.c:736-774 | a measurement that counts updates the table, loaded first if need be, its time and size are logged as one sample, and the time returned is that of the entry for the job's size; others change nothing |
| EtaTable.StepAgrees | src/worker.c:347-375 | updating and loading the logged record are the same step while the key has a place |
| EtaTable.AgreesExactlyWhen | src/worker.c:314-378 | after any run of updates the table equals what the extended log loads as, if and only if the keys are together at most eight |
| EtaTable.RestartExactlyWhen | src/worker.c:314-378 | the same for a process that starts from the log of earlier runs and one that starts after it; live entries are a prefix with distinct keys |
| EtaTable.NinthKeyDiffers | src/worker.c:757-763 | any measurements with more than eight different keys leave a table that a restart does not rebuild, and there are nine such |
| EtaTable.TableHoldsSums | src/worker.c:355-375 | with at most eight keys each key's entry holds the sums of its records |
| EtaTable.UpdatesAddUp | src/worker.c:736-774 | with at most eight keys, updates add to a key's entry exactly the times, the sizes (1 for one not above 0) and the number of its measurements |
| EtaTable.TimeIsMean | src/worker.c:766-774 | the time returned is the mean time per size of all measurements of the key, this one included, times the job's size; for a key's first measurement it is the time measured |
| EtaTable.NinthKeyJoinsFirst | src/worker.c:757-768 | a measurement for a ninth key is added to the first entry and no other |

## Left out

- Sockets, HTTP, static files, event sending, logging, environment reading and the browser code: input and output.
- libpng, libwebp, libavif and sqlite: foreign code. The quantiser stops at palette and indexed image; the transparency chunk of `src/compress_png.c:364-374` is not part of this model.
- AccessToken.ValidateAccess: gives the user that the token names; that a record of that user in the store takes its place (`src/auth.c:910-914`) is not modelled. The clock is a parameter.
- Refresh tokens and API keys: sqlite rows.
- AccessToken.Build: an expiry outside the range of `time_t` is excluded by its requires, as the addition would overflow.
- Base64.EncodeUrl: for no bytes the encoders allocate nothing or one byte; the model has the empty string.
- MedianCut.QSort: states a sorted permutation, because the C library leaves the order of equal elements open; the method runs undisturbed, without another thread changing the channel of the comparison.
- Histogram.Accumulate: the four sum arrays are one array of records; the counters are exact below 2^32 pixels.
- C memory ordering and wrap-around of queue positions: sequential consistency and unbounded positions.
- ProgressChannel.Channel.NextEvent: starts where the wait on the condition variable ends, which is its requires; that the wait ends is not claimed.
- ProgressLifecycle.Registry.Acquire: the method runs undisturbed, as ProgressLifecycle.Registry.Release does; what may come between the steps is stated over the steps, in `ProgressTheorems`.
- Freed memory: a step that touches a channel after it has been freed is given the meaning it has on a channel that is still there; the theorems say when there is none.
- `fp_progress_registry_destroy` and the rejected-push path of `src/server.c:1934-1941`, after which one of two references is never given back, are not modelled.
- Event texts and their JSON escaping (`src/progress.c:299-350`): an event is a text.
- ResultRouting.EveryRunConserves: safety only; that a waiter ever returns is not claimed, as the stash is looked at once before its loop.
- Quota.QuotaOverAnyHistory: requests of more than 2^63 files or bytes are excluded, as their sums could wrap; the server passes at most 10 files and 100 MiB. What verdict a request for an earlier day gets is not stated.
- ImageOps.Image.Crop: arguments whose sum passes `INT_MAX` are excluded, as the C addition would overflow; sizes are at most `INT_MAX`.
- ImageOps.Image.Trim: the tolerance is a real number, so float rounding is not modelled.
- EtaTable.Eta.LoadLog: starts from parsed records; the tokenising of the log file by `fscanf` and keys of more than 31 characters are not modelled.
- EtaTable.Eta.UpdateAverage: exact reals for doubles; the log keeps the exact value where the source prints six decimals, and the sample counter does not wrap around.
- FormRoundTrip.ParseOfRender: header lines as browsers write them; other orders and spellings of header parameters are covered by `EveryBody` only.
- Price picking, option clamping, response assembly and stripe stubs: many branches, shallow properties.
