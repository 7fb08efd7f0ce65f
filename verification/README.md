# Verified models of the mjpg-streamer plugins

This project models the parts of mjpg-streamer's plugins in which data is decoded, rewritten, framed or
handed from one thread to another, and proves what those parts promise. `dafny verify dfyconfig.toml`
checks everything.

## What is modelled

**The entropy decoder of the autofocus output** (`output_autofocus/processJPEG_onlyCenter.c`; ITU-T T.81,
sections B.2.4.2, C.2, F.1.2 and F.2.2).

- `Words`: 32-bit words as bit sequences, most significant first, so that C's `|`, `&`, `<<` and the
  arithmetic `>>` are exact; bytes and numbers relate to them by `OfNat` and `Value`.
- `Huffman`, `DhtTables`: canonical code entries and the loader that fills the lookup arrays from a DHT
  segment. The parallel arrays for bits, mask, length and value are one array of entries.
- `Stuffing`: the bytes the refill loop takes from memory. Memory is a total function, because the code
  reads past the frame's end.
- `BlockCode`: one block as functions over a bit stream: the decoder, and the encoder of T.81 as the
  independent reference.
- `BitReader`, `Scan`: the imperative reservoir, `readXC`, `readTable` and the scan loop, proved equal to
  the stream functions; the round trips of whole scans.
- `StandardTables`, `StandardCoding`: the tables of `dht_data` (section K.3 of T.81) and what they code.

**The multipart stream** (`output_http/httpd.c`, `input_http/mjpg-proxy.c`, `input_http/misc.c`).

- `Matcher`: the reset-only pattern matcher and the CRLF masks.
- `Extractor`: `extract_data` as a step machine and as the class that updates its fields, and the receive
  loop.
- `Stream`: what `send_stream` writes, and the round trip through the extractor.

**Hand-over of frames.** `Handover` is a step system with the mutex, the condition variable, one producer
and any number of consumers, in which copying happens in pieces. `Raspicam` is the encoder callback that
keeps the mutex locked between calls.

**Byte machines of the HTTP server** (`httpd.c`): `IoBuffer`, `Base64`, `Unescape`.

**Rewriting and retention**: `DhtSplice` (`is_huffman`, `memcpy_picture`), `Pixels` and `Destination`
(`jpeg_utils.c`), `FileNames` and `FileRing` (`output_file.c`).
`Wrappers` holds the option type they share.

## Where the code does less than it seems to promise

Each of these is kept in the model and has its exact condition proved.

- `readXC` gives up after looking at a table's last entry even if that entry matched. A block decodes
  exactly when it needs no last entry (`BlockCode.BlockRoundTrip`), a scan likewise (`Scan.ScanRoundTrip`). With
  the standard tables that is when no DC difference has eleven bits and no coefficient of ten bits stands behind
  fifteen zeros (`StandardCoding.StandardRoundTrip`); a difference of 1024 is lost
  (`StandardCoding.LostDifference`).
- The first two scan bytes are not un-stuffed, and the byte after `FF 00` is not examined. The bytes of a stuffed
  scan are delivered unchanged exactly when only zero bytes follow each FF that is among the first two bytes or
  next behind another FF (`Stuffing.ReadsStuffedScan`); 01 02 FF FF 01 comes out as 01 02 FF FF 00
  (`Stuffing.MisreadScan`).
- The loader accepts any counts. Its table is prefix-free exactly when they satisfy Kraft's inequality, which
  is the same as `code_val` not passing 2^16 (`DhtTables.SpecTableLegal`, `DhtTables.KraftIffCodeVal`); three
  codes of one bit are taken (`DhtTables.BadCounts`).
- The CRLF test is a superset test on five bits (`Matcher.CrlfBits`). It accepts `OK\r\n` as an empty line, so a session's first
  callback carries the server's header lines instead of an image (`Stream.SessionDelivers`).
- Where plain `char` is signed, a single header byte of 128 or more that has LF's two bits ends the header
  (`Matcher.HighByteEndsHeader`).
- The matcher starts over without looking at the current byte again. It finds an occurrence exactly when it is
  in state 0 at its first byte (`Matcher.FoundIffFresh`), and a frame comes through exactly when the matcher
  stays silent in it and it fits (`Stream.FrameDeliveredIff`). That is not the same as containing no boundary:
  behind a dash the boundary is missed (`Stream.MissedBoundary`).
- When the matcher completes the boundary within the first 21 content bytes, the code passes a negative length,
  recorded as `NegativeLength`. That happens exactly when the content starts with the boundary or has it at its
  second byte behind a byte that is not a dash (`Stream.NegativeLengthIff`); the boundary alone gives -2
  (`Stream.NegativeLengthAt`).
- Waiting consumers test no predicate. A consumer's copy is of the same publication as its last one exactly when
  nothing was published in between, which takes a spurious wake-up of that consumer (`Handover.RepeatIff`); and
  that happens to a real frame (`Handover.SpuriousRepeats`). A consumer can also copy, and send, the empty
  placeholder: exactly when nothing was published before, which again takes a spurious wake-up of its own
  (`Handover.PlaceholderIff`, `Handover.SpuriousPlaceholder`).
- The Raspberry Pi callback unlocks the mutex also for a frame without a byte, whose lock was never taken; that
  is exactly when the lock discipline breaks (`Raspicam.Encoder.Callback`, `Raspicam.EmptyFrame`).
- `_readline` returns -1 exactly when a timeout, the end or an error comes before the line is whole, and then the
  bytes of that line are lost (`IoBuffer.Reader.ReadLine`).
- `is_huffman` looks neither at the frame's size nor beyond offset 2048, so `memcpy_picture` is idempotent
  exactly when the table went in within reach and no SOS stands before it (`DhtSplice.Idempotent`); otherwise
  there are two tables (`DhtSplice.TwoTables`).
- File names do not always sort by age: within one second the counters m < n sort exactly when m, with as many
  zeros appended as n is printed longer, is at most n (`FileNames.SameSecond`), so 1000000000 comes before
  999999999 (`FileNames.WrongOrder`) and the names of a single second sort exactly up to nine digits
  (`FileNames.OneSecondSorts`). The exact condition for a run, whatever the clock does, is `FileNames.RunSorts`;
  a clock that goes back breaks it (`FileNames.ClockGoesBack`). Clean-ups keep the names listed last, not the
  newest files (`FileRing.SurvivorsAreGreatest`), so a new file can be the one deleted (`FileRing.NewFileLost`).

## Modelling choices

- The socket is an arbitrary list of answers (`IoBuffer.Peer`) or chunks; clocks, failures of `scandir` and
  `unlink` and the stop flag are parameters. `FileRing.Worker.Scandir` stands for a successful `scandir`, sorting
  as in the C locale.
- Whether plain `char` is signed is the parameter `signedChar`; every result holds for both.
- DC value sizes are at most 16 where the imperative code runs (its mask table ends there), and size 0 stands
  for value 0.
- The tables `readTable` fills are collected in groups of four instead of being added up as sharpness sums.
- Of the header loop of `client_thread` only the reading of lines is modelled, not what it looks for in them.
- Times in file names have a year of at most four digits.
- In `Handover` the first publication is the empty frame before any other, and a local buffer is its contents
  and a capacity.
- `Raspicam` requires that fragments fit the global buffer and `Destination` and `DhtSplice` that the output
  is large enough, as the code checks neither.
- Definitions that only compute (`Extractor.Step`, `BlockCode.DecodeBlock`, `Stream.Part`,
  `DhtSplice.Picture` and others) have no row below; the rows name what is proved about them.

## Model

| member | source | states |
|---|---|---|
| Huffman.LegalIffKraft | mjpg-streamer-master/mjpg-streamer-experimental/plugins/output_autofocus/processJPEG_onlyCenter.c:100-113 | The entries the loader computes for sorted code lengths 1 to 16 form a well-formed prefix-free table if and only if the lengths satisfy Kraft's inequality; the loader itself tests nothing |
| Huffman.TilesCodeSpace | mjpg-streamer-master/mjpg-streamer-experimental/plugins/output_autofocus/processJPEG_onlyCenter.c:152-163 | Under Kraft's inequality the masked tests of a table divide the 32-bit words: below the Kraft sum exactly one entry hits, at or above it none |
| Huffman.HitIsInterval | mjpg-streamer-master/mjpg-streamer-experimental/plugins/output_autofocus/processJPEG_onlyCenter.c:153 | Entry k is hit exactly by the words from its own code word up to the next entry's: consecutive codes are adjacent intervals of 2^(32 - length) words |
| Huffman.MaskedTestIsInterval | mjpg-streamer-master/mjpg-streamer-experimental/plugins/output_autofocus/processJPEG_onlyCenter.c:153 | Comparing a word under a length mask with a left-aligned code is membership in the interval of words that start with the code |
| Huffman.LeftSumAligned | mjpg-streamer-master/mjpg-streamer-experimental/plugins/output_autofocus/processJPEG_onlyCenter.c:101-113 | Where one code's words end, the next code of equal or greater length starts left-aligned: `code_val` never loses a bit to a shift |
| Huffman.CanonicalWellFormed | mjpg-streamer-master/mjpg-streamer-experimental/plugins/output_autofocus/processJPEG_onlyCenter.c:105-108 | Every loaded entry, also one whose code wraps past 32 bits, has a contiguous mask and no code bits below it |
| Huffman.Overflowing | mjpg-streamer-master/mjpg-streamer-experimental/plugins/output_autofocus/processJPEG_onlyCenter.c:104-112 | When Kraft fails, some later code starts exactly at 2^32 and wraps to zero, colliding with the first code |
| DhtTables.Tables.LoadLength | mjpg-streamer-master/mjpg-streamer-experimental/plugins/output_autofocus/processJPEG_onlyCenter.c:104-111 | The inner loop writes exactly the canonical entries of one length, and nothing else in the lookup arrays |
| DhtTables.Tables.FillRow | mjpg-streamer-master/mjpg-streamer-experimental/plugins/output_autofocus/processJPEG_onlyCenter.c:95-114 | The loop over lengths fills one row with the whole canonical table and leaves the other three rows alone |
| DhtTables.Tables.LoadTable | mjpg-streamer-master/mjpg-streamer-experimental/plugins/output_autofocus/processJPEG_onlyCenter.c:95-115 | One table specification replaces exactly its own table; the other three keep their contents |
| DhtTables.Tables.LoadSegment | mjpg-streamer-master/mjpg-streamer-experimental/plugins/output_autofocus/processJPEG_onlyCenter.c:93-116 | The do loop reads at least one specification and stops at the segment's end with the four tables that result from reading them in order |
| DhtTables.SpecTableLegal | mjpg-streamer-master/mjpg-streamer-experimental/plugins/output_autofocus/processJPEG_onlyCenter.c:95-115 | Every loaded table is well-formed, and it is prefix-free exactly when its sixteen counts satisfy Kraft |
| DhtTables.KraftIffCodeVal | mjpg-streamer-master/mjpg-streamer-experimental/plugins/output_autofocus/processJPEG_onlyCenter.c:101-113 | Kraft's inequality holds exactly when the loader's `code_val` has not passed 2^16 after the last length |
| DhtTables.BadCounts | mjpg-streamer-master/mjpg-streamer-experimental/plugins/output_autofocus/processJPEG_onlyCenter.c:95-115 | A specification the loader takes although it breaks Kraft, three codes of one bit: its table is not prefix-free |
| DhtTables.SegmentRoundTrip | mjpg-streamer-master/mjpg-streamer-experimental/plugins/output_autofocus/processJPEG_onlyCenter.c:93-116 | Loading the bytes of any list of table specifications laid out as in section B.2.4.2 of T.81 installs exactly those tables, later ones over earlier ones |
| DhtTables.InstallLegal | mjpg-streamer-master/mjpg-streamer-experimental/plugins/output_autofocus/processJPEG_onlyCenter.c:93-116 | Specifications that satisfy Kraft leave four legal tables, if the slots none of them targets hold legal tables before |
| Stuffing.ReadsStuffedScan | mjpg-streamer-master/mjpg-streamer-experimental/plugins/output_autofocus/processJPEG_onlyCenter.c:133-150 | With a stuffed scan in memory, all its bytes are delivered as they are if and only if only zero bytes follow each FF that is among the first two bytes or next behind another FF, whatever stands behind the scan; T.81 promises it for all scans |
| Stuffing.MisreadScan | mjpg-streamer-master/mjpg-streamer-experimental/plugins/output_autofocus/processJPEG_onlyCenter.c:142-149 | A scan T.81 allows and the decoder misreads: 01 02 FF FF 01 comes out as 01 02 FF FF 00 |
| Stuffing.DeliversStuffed | mjpg-streamer-master/mjpg-streamer-experimental/plugins/output_autofocus/processJPEG_onlyCenter.c:139-149 | The refill loop alone, from the third byte on, delivers stuffed bytes unchanged exactly when only zeros follow the second of two adjacent FF bytes |
| Stuffing.ShiftedByOne | mjpg-streamer-master/mjpg-streamer-experimental/plugins/output_autofocus/processJPEG_onlyCenter.c:142-149 | A stuffing zero taken for a byte shifts all later bytes by one, so they come out right exactly when they are all zero |
| BitReader.Reader.constructor | mjpg-streamer-master/mjpg-streamer-experimental/plugins/output_autofocus/processJPEG_onlyCenter.c:133-134 | After the first two bytes the top 16 bits of the reservoir are the first 16 bits of the scan and the rest are zero |
| BitReader.Reader.Drop | mjpg-streamer-master/mjpg-streamer-experimental/plugins/output_autofocus/processJPEG_onlyCenter.c:164 | Shifting out n bits uses up exactly the next n bits of the scan and keeps the reservoir a prefix of the rest |
| BitReader.AppendByte | mjpg-streamer-master/mjpg-streamer-experimental/plugins/output_autofocus/processJPEG_onlyCenter.c:140-141 | OR-ing a byte shifted by 24 - bitlen appends it to the loaded bits, for up to 24 loaded bits, and the shift amount is not negative |
| BitReader.Reader.RefillPass | mjpg-streamer-master/mjpg-streamer-experimental/plugins/output_autofocus/processJPEG_onlyCenter.c:139-149 | One pass keeps the reservoir a prefix of the unread scan, uses up nothing, and ends with at most 31 bits |
| BitReader.Reader.Refill | mjpg-streamer-master/mjpg-streamer-experimental/plugins/output_autofocus/processJPEG_onlyCenter.c:138-150 | The refill loop ends, keeps the invariant and leaves 16 to 31 bits whenever it ran |
| BitReader.TopBits | mjpg-streamer-master/mjpg-streamer-experimental/plugins/output_autofocus/processJPEG_onlyCenter.c:189 | Arithmetic shift and mask give the number written in the top n bits, also when the register is negative, up to n = 16 |
| BitReader.HitIsCode | mjpg-streamer-master/mjpg-streamer-experimental/plugins/output_autofocus/processJPEG_onlyCenter.c:153 | The masked test asks whether the reservoir starts with the entry's code |
| BitReader.Reader.ReadXC | mjpg-streamer-master/mjpg-streamer-experimental/plugins/output_autofocus/processJPEG_onlyCenter.c:137-179 | readXC returns the symbol the bit stream holds and uses up exactly its code's bits; it fails exactly when the stream decoder does, the last entry included |
| BitReader.Reader.NextSymbol | mjpg-streamer-master/mjpg-streamer-experimental/plugins/output_autofocus/processJPEG_onlyCenter.c:151-163 | With at least 16 bits loaded the search answers as the stream decoder does at the position reached, with a code of at most 16 bits |
| BitReader.Reader.Search | mjpg-streamer-master/mjpg-streamer-experimental/plugins/output_autofocus/processJPEG_onlyCenter.c:151-163 | The search loop returns the first hit that is not the last entry, and otherwise -1, also for an empty table |
| BitReader.Reader.ReadValue | mjpg-streamer-master/mjpg-streamer-experimental/plugins/output_autofocus/processJPEG_onlyCenter.c:189-190 | The value bits are the next `size` bits of the scan, extended to a signed value; exactly they are used up |
| BlockCode.SymbolDecodes | mjpg-streamer-master/mjpg-streamer-experimental/plugins/output_autofocus/processJPEG_onlyCenter.c:151-163 | In a prefix-free table a code in the stream is decoded if and only if its entry is not the table's last |
| BlockCode.ExtendBijection | mjpg-streamer-master/mjpg-streamer-experimental/plugins/output_autofocus/processJPEG_onlyCenter.h:1 | HUFF_EXTEND is a bijection from the s-bit numbers to the values of category s, with the encoder's magnitude bits as its inverse |
| BlockCode.SentBits | mjpg-streamer-master/mjpg-streamer-experimental/plugins/output_autofocus/processJPEG_onlyCenter.c:189-190 | The value bits are those of section F.1.2.1 of T.81: a positive value as it is, a negative one as the complement of its opposite |
| BlockCode.ItemsRebuild | mjpg-streamer-master/mjpg-streamer-experimental/plugins/output_autofocus/processJPEG_onlyCenter.c:192-212 | Running the AC loop's effect over the run-length items of any block (T.81 Figure F.2: ZRL, EOB, a nonzero last coefficient) rebuilds the block |
| BlockCode.ItemsDecode | mjpg-streamer-master/mjpg-streamer-experimental/plugins/output_autofocus/processJPEG_onlyCenter.c:192-215 | The AC loop decodes the bits of a list of items to what the list says and stops after exactly those bits, or fails if one of them needs the last entry |
| BlockCode.BlockRoundTrip | mjpg-streamer-master/mjpg-streamer-experimental/plugins/output_autofocus/processJPEG_onlyCenter.c:181-216 | For every block that two legal tables can code, decoding its code gives the block back and uses exactly its bits if no symbol needed is a table's last entry, and fails otherwise |
| BlockCode.DecodeACKeeps | mjpg-streamer-master/mjpg-streamer-experimental/plugins/output_autofocus/processJPEG_onlyCenter.c:192-215 | A successful AC loop never touched a coefficient it had passed and yields exactly 64 coefficients |
| BlockCode.DCRoundTrip | mjpg-streamer-master/mjpg-streamer-experimental/plugins/output_autofocus/processJPEG_onlyCenter.c:186-191 | The DC part of a block decodes to predictor plus difference and uses exactly its bits, or fails if the size needs the last entry |
| Scan.ReadAC | mjpg-streamer-master/mjpg-streamer-experimental/plugins/output_autofocus/processJPEG_onlyCenter.c:192-215 | The imperative AC loop equals the stream decoder; on success nothing past index 63 was written |
| Scan.ReadTable | mjpg-streamer-master/mjpg-streamer-experimental/plugins/output_autofocus/processJPEG_onlyCenter.c:181-216 | readTable fills the 64 coefficients the bit stream holds, advances the predictor to the block's DC value, and fails exactly when the stream decoder does |
| Scan.ReadBlock | mjpg-streamer-master/mjpg-streamer-experimental/plugins/output_autofocus/processJPEG_onlyCenter.c:181-216 | readTable, given two table numbers and one predictor, yields the next block the bit stream holds in these tables and the predictor for the next |
| Scan.ReadGroup | mjpg-streamer-master/mjpg-streamer-experimental/plugins/output_autofocus/processJPEG_onlyCenter.c:235-268 | One pass of the scan loop decodes two luminance blocks in tables `huffman_DCY` and `huffman_ACY + 1`, the second from the DC of the first, then a Cr and a Cb block in tables 2 and 3 from predictors of their own, and fails at the first that fails |
| Scan.DecodeScan | mjpg-streamer-master/mjpg-streamer-experimental/plugins/output_autofocus/processJPEG_onlyCenter.c:227-273 | The loop over the groups starts from three zero predictors, hands the DC values of the second, third and fourth block of a group on to the next, and returns all groups in order, or an error exactly when some block fails |
| Scan.GroupRoundTrip | mjpg-streamer-master/mjpg-streamer-experimental/plugins/output_autofocus/processJPEG_onlyCenter.c:235-268 | Four blocks coded one behind the other, luminance twice with the given tables and both chrominance blocks with tables 2 and 3, each chrominance with its own predictor: the decoder gives the group back and uses exactly its bits, or fails if a last entry is needed |
| Scan.GroupsRoundTrip | mjpg-streamer-master/mjpg-streamer-experimental/plugins/output_autofocus/processJPEG_onlyCenter.c:227-273 | Decoding any number of coded groups from any three predictors gives back every block, absolute DC included, exactly when none needs a last entry |
| Scan.FirstIsDC | mjpg-streamer-master/mjpg-streamer-experimental/plugins/output_autofocus/processJPEG_onlyCenter.c:190-191 | The first coefficient of a decoded block is its DC value: the AC loop leaves it alone |
| Scan.DcIsPrefixSum | mjpg-streamer-master/mjpg-streamer-experimental/plugins/output_autofocus/processJPEG_onlyCenter.c:227-268 | For every stream: decoding from three predictors succeeds exactly when the differences can be read, ends at the same place, and gives each block the start predictor of its component plus the sum of the differences read for that component so far, luminance differences from both luminance blocks |
| Scan.NoInterference | mjpg-streamer-master/mjpg-streamer-experimental/plugins/output_autofocus/processJPEG_onlyCenter.c:227-268 | Runs from different start predictors succeed or fail together, end at the same place, and differ in each block only by the difference of its own component's predictors in coefficient 0 |
| Scan.PredictorAdds | mjpg-streamer-master/mjpg-streamer-experimental/plugins/output_autofocus/processJPEG_onlyCenter.c:186-191 | In one block the predictor only adds to coefficient 0 |
| Scan.ScanRoundTrip | mjpg-streamer-master/mjpg-streamer-experimental/plugins/output_autofocus/processJPEG_onlyCenter.c:133-273 | End to end from stuffed bytes in memory to blocks, for any number of blocks, any padding and anything behind the scan: every block comes out exactly when none needs a last entry |
| Scan.FileRoundTrip | mjpg-streamer-master/mjpg-streamer-experimental/plugins/output_autofocus/processJPEG_onlyCenter.c:86-273 | From the DHT segment's bytes and the scan's bytes together: tables written and satisfying Kraft are loaded, whatever the slots they fill held before, and decode every scan coded with them, unless it needs a last entry |
| StandardCoding.ZeroChromaBlock | mjpg-streamer-master/mjpg-streamer-experimental/plugins/output_autofocus/processJPEG_onlyCenter.c:262-267 | Four zero bits are an empty chrominance block in the standard tables 2 and 3 (two bits in each, unlike in the luminance tables), whatever follows |
| StandardCoding.ZeroGroup | mjpg-streamer-master/mjpg-streamer-experimental/plugins/output_autofocus/processJPEG_onlyCenter.c:235-268 | The twenty bits 00 1010 00 1010 00 00 00 00 decode with the standard tables to a group without detail whose DC values are the luminance predictor twice and the two chrominance predictors, whatever follows |
| StandardCoding.StandardBlock | mjpg-streamer-master/mjpg-streamer-experimental/plugins/output_autofocus/processJPEG_onlyCenter.c:151-216 | With the standard tables a block can be coded exactly when its DC difference has at most eleven bits and its other coefficients at most ten, and then it needs no last entry exactly when the difference has at most ten bits and no coefficient of ten bits stands behind fifteen zeros (groups of sixteen left out) |
| StandardCoding.StandardRoundTrip | mjpg-streamer-master/mjpg-streamer-experimental/plugins/output_autofocus/processJPEG_onlyCenter.c:133-273 | For every list of such blocks, coded with the standard tables and stuffed readably: the decoder gives all of them back if and only if every block meets that condition, which speaks of the blocks alone |
| StandardCoding.StandardLoaded | mjpg-streamer-master/mjpg-streamer-experimental/plugins/output_autofocus/processJPEG_onlyCenter.c:93-116 | Loading dht_data leaves exactly the standard tables in the four slots, all legal, whatever was there before |
| StandardCoding.LostDifference | mjpg-streamer-master/mjpg-streamer-experimental/plugins/output_autofocus/processJPEG_onlyCenter.c:158-162 | An input that is lost: a DC difference of 1024 has a code, which is the last entry, and the block with it fails to decode |
| Matcher.StateIsSuffix | mjpg-streamer-master/mjpg-streamer-experimental/plugins/input_http/misc.c:45-62 | State q of the reset-only matcher means that the last q bytes are the pattern's first q, so a match is a true occurrence |
| Matcher.FoundIffFresh | mjpg-streamer-master/mjpg-streamer-experimental/plugins/input_http/misc.c:49-58 | An occurrence is found if and only if the matcher is in state 0 at its first byte |
| Matcher.FoundAfterForeign | mjpg-streamer-master/mjpg-streamer-experimental/plugins/input_http/misc.c:49-58 | An occurrence directly after a byte that is not in the pattern is found, whatever came before |
| Matcher.SearchPattern.Compare | mjpg-streamer-master/mjpg-streamer-experimental/plugins/input_http/misc.c:49-58 | The in-place comparison moves the state as the matcher function says and reports a hit exactly when the state is not 0 |
| Matcher.CrlfBits | mjpg-streamer-master/mjpg-streamer-experimental/plugins/input_http/misc.c:23-26 | The mask test of the last two bytes holds exactly when three particular bits of one and two of the other are set, so it is a superset test and not equality |
| Matcher.PushUnsigned | mjpg-streamer-master/mjpg-streamer-experimental/plugins/input_http/misc.c:33-35 | With an unsigned char, or a byte below 128, the register shifts by eight bits |
| Matcher.HighByteEndsHeader | mjpg-streamer-master/mjpg-streamer-experimental/plugins/input_http/misc.c:33-35 | With a signed char a byte of 128 or more fills the register with ones and passes the CRLFCRLF test alone exactly if it has LF's two bits |
| Extractor.RunConcat | mjpg-streamer-master/mjpg-streamer-experimental/plugins/input_http/mjpg-proxy.c:73-111 | A call on two inputs put together is the two calls one after the other |
| Extractor.ChunkingIndependence | mjpg-streamer-master/mjpg-streamer-experimental/plugins/input_http/mjpg-proxy.c:126-127 | However the input is cut into receive buffers, the final state and the callbacks are those of one call on the whole |
| Extractor.FullIsAbsorbing | mjpg-streamer-master/mjpg-streamer-experimental/plugins/input_http/mjpg-proxy.c:93-96 | Once 262143 bytes are stored without a match, no input changes anything and nothing is delivered any more |
| Extractor.ImagesGrow | mjpg-streamer-master/mjpg-streamer-experimental/plugins/input_http/mjpg-proxy.c:99-105 | Callbacks are only added, and what is delivered later does not depend on what was delivered before |
| Extractor.ExtractorState.Init | mjpg-streamer-master/mjpg-streamer-experimental/plugins/input_http/mjpg-proxy.c:51-59 | Resets everything but the images delivered so far |
| Extractor.ExtractorState.HeaderByte | mjpg-streamer-master/mjpg-streamer-experimental/plugins/input_http/mjpg-proxy.c:77-90 | A header byte moves only the last four bytes, the part and the Content-Length matcher, and enters the content exactly on the four-byte test |
| Extractor.ExtractorState.ContentByte | mjpg-streamer-master/mjpg-streamer-experimental/plugins/input_http/mjpg-proxy.c:92-106 | A content byte is stored in place and either keeps the matcher going, or delivers the image without CRLF and boundary and resets; a full buffer stays as it is |
| Extractor.ExtractorState.OneByte | mjpg-streamer-master/mjpg-streamer-experimental/plugins/input_http/mjpg-proxy.c:76-107 | The switch on a byte, with its updates of buffer, length, matchers and part, is one step of the machine; length never exceeds 262143 |
| Extractor.ExtractorState.ExtractData | mjpg-streamer-master/mjpg-streamer-experimental/plugins/input_http/mjpg-proxy.c:73-111 | extract_data runs the machine over the input up to the first byte before which the stop flag is seen |
| Extractor.ExtractorState.ProcessResponse | mjpg-streamer-master/mjpg-streamer-experimental/plugins/input_http/mjpg-proxy.c:115-129 | The receive loop has, for any chunk sizes, the outcome of the whole response in one piece |
| Stream.SendParts | mjpg-streamer-master/mjpg-streamer-experimental/plugins/output_http/httpd.c:480-534 | The writes of the loop put together are the parts of the frames in order |
| Stream.PartSays | mjpg-streamer-master/mjpg-streamer-experimental/plugins/output_http/httpd.c:521-533 | A part in full: with a separate reader of decimal numbers, what stands behind `Content-Length: ` up to the CR is the frame's length, and what stands before and behind the dot of `X-Timestamp: ` is seconds and microseconds, the latter in at least six characters |
| Stream.DecimalNumber | mjpg-streamer-master/mjpg-streamer-experimental/plugins/output_http/httpd.c:521-524 | What `%d` and `%06d` print reads back as the number, also a negative one |
| Stream.PartHeaderRun | mjpg-streamer-master/mjpg-streamer-experimental/plugins/output_http/httpd.c:521-526 | The four-byte mask test fires nowhere in a part header except at its end, for any length and timestamp, so the header always leads into an empty content |
| Stream.DelimiterMatches | mjpg-streamer-master/mjpg-streamer-experimental/plugins/output_http/httpd.c:532 | After a frame in which the matcher stays silent, the delimiter matches at its last byte and not earlier |
| Stream.FrameDeliveredIff | mjpg-streamer-master/mjpg-streamer-experimental/plugins/input_http/mjpg-proxy.c:92-106 | A frame followed by its delimiter is delivered exactly as it is, if and only if the matcher stays silent in it and its length plus 22 is at most 262143 |
| Stream.FirstCallback | mjpg-streamer-master/mjpg-streamer-experimental/plugins/input_http/mjpg-proxy.c:92-106 | The first callback out of any content is what precedes the first match, 22 bytes cut off, if the match ends within the buffer; otherwise there is none |
| Stream.NegativeLengthIff | mjpg-streamer-master/mjpg-streamer-experimental/plugins/input_http/mjpg-proxy.c:97-104 | For any content: the first callback passes a negative length if and only if the content starts with the boundary, or has it at the second byte behind a byte that is not a dash |
| Stream.NegativeLengthAt | mjpg-streamer-master/mjpg-streamer-experimental/plugins/input_http/mjpg-proxy.c:97-104 | The boundary alone as content passes the length -2 |
| Stream.MissedBoundary | mjpg-streamer-master/mjpg-streamer-experimental/plugins/input_http/mjpg-proxy.c:97-99 | A dash and the boundary: the content contains the boundary, the matcher misses it, nothing is delivered, and as a frame it is deliverable |
| Stream.StreamRoundTrip | mjpg-streamer-master/mjpg-streamer-experimental/plugins/output_http/httpd.c:480-534 | From the reset state, the parts written for any list of such frames make the extractor deliver exactly those frames, in order, and end reset |
| Stream.StreamDeliversIff | mjpg-streamer-master/mjpg-streamer-experimental/plugins/output_http/httpd.c:480-534 | For any list of frames: exactly these come out of the parts written for them, if and only if the matcher stays silent in each and each fits |
| Stream.BoundaryFreeRoundTrip | mjpg-streamer-master/mjpg-streamer-experimental/plugins/output_http/httpd.c:480-534 | In particular this holds for all frames of up to 262121 bytes that do not contain the boundary |
| Stream.StatusLineEndsHeader | mjpg-streamer-master/mjpg-streamer-experimental/plugins/input_http/mjpg-proxy.c:78-80 | The bytes OK CR LF pass the CRLFCRLF test, so the status line alone ends the header |
| Stream.SessionDelivers | mjpg-streamer-master/mjpg-streamer-experimental/plugins/output_http/httpd.c:466-534 | A whole session delivers the server's own header lines as a first image, then exactly the frames |
| Stream.BoundaryAnnounced | mjpg-streamer-master/mjpg-streamer-experimental/plugins/output_http/httpd.c:466-471 | The header lines end in announcing the very boundary that stands, behind two dashes, between the parts |
| Handover.StepKeeps | mjpg-streamer-master/mjpg-streamer-experimental/plugins/output_http/httpd.c:480-510 | Every step of producer and consumers keeps the invariant: lock ownership, buffer contents against the latest publication, copies against their publications, order and capacity |
| Handover.HandOver | mjpg-streamer-master/mjpg-streamer-experimental/plugins/output_http/httpd.c:480-510 | In every state of every run with any number of consumers: each finished copy is one whole publication, or the empty placeholder with number 0; a consumer that has not woken up spuriously, whatever others do, has only copies of published frames, with strictly increasing numbers; any consumer's numbers never decrease; while copying the frame fits both buffers |
| Handover.BroadcastWakesAll | mjpg-streamer-master/mjpg-streamer-experimental/plugins/output_http/httpd.c:483-484 | In every run with any number of consumers: a broadcast wakes every waiting consumer, changes no other and leaves none waiting |
| Handover.CanReacquire | mjpg-streamer-master/mjpg-streamer-experimental/plugins/output_http/httpd.c:484 | A consumer waiting at a broadcast stays woken until it takes the lock again, which it can in every later state in which the lock is free |
| Handover.Delivered | mjpg-streamer-master/mjpg-streamer-experimental/plugins/output_http/httpd.c:483-510 | A consumer waiting at a broadcast that takes the lock before the producer does again has as its next copy exactly the frame that was announced |
| Handover.PublishedIsWritten | mjpg-streamer-master/mjpg-streamer-experimental/plugins/input_uvc/input_uvc.c:773-810 | What is published is what was written since the lock was taken, in order, and it joins the earlier publications at the end |
| Handover.WritesInPlace | mjpg-streamer-master/mjpg-streamer-experimental/plugins/input_uvc/input_uvc.c:773-797 | A write changes only the bytes it is about, behind those written before, and the buffer keeps its length |
| Handover.PlaceholderIff | mjpg-streamer-master/mjpg-streamer-experimental/plugins/output_http/httpd.c:483-510 | A copy is of the placeholder if and only if nothing was published before it, and then it is empty and that consumer woke up spuriously before |
| Handover.SpuriousPlaceholder | mjpg-streamer-master/mjpg-streamer-experimental/plugins/output_http/httpd.c:484 | A run without any publication in which a consumer finishes a copy |
| Handover.RepeatIff | mjpg-streamer-master/mjpg-streamer-experimental/plugins/output_http/httpd.c:483-510 | Two consecutive copies of a consumer are of one publication if and only if nothing was published between them, and then that consumer woke up spuriously in between |
| Handover.Exclusive | mjpg-streamer-master/mjpg-streamer-experimental/plugins/input_uvc/input_uvc.c:773-810 | Producer and consumers are never in the lock together |
| Handover.SpuriousRepeats | mjpg-streamer-master/mjpg-streamer-experimental/plugins/output_http/httpd.c:484 | A run in which a consumer copies a published one-byte frame, any byte, twice |
| Raspicam.Encoder.Callback | mjpg-streamer-master/mjpg-streamer-experimental/plugins/input_raspicam/input_raspicam.c:373-458 | Over any callback sequence: the buffer holds the fragments so far, a frame's end publishes their concatenation with its size, the lock is held exactly while the offset is not 0 unless an empty frame has unlocked a free mutex, which is exactly when a frame ended without a byte; headers in pool and port are conserved but for failed sends |
| Raspicam.FragmentsConcatenate | mjpg-streamer-master/mjpg-streamer-experimental/plugins/input_raspicam/input_raspicam.c:382-419 | A frame delivered in any number of fragments is published as their concatenation in order, once |
| Raspicam.Encoder.Absorb | mjpg-streamer-master/mjpg-streamer-experimental/plugins/input_raspicam/input_raspicam.c:382-397 | A fragment is appended at the offset; the lock is taken exactly with a frame's first byte, and an empty fragment changes nothing |
| Raspicam.Encoder.Finish | mjpg-streamer-master/mjpg-streamer-experimental/plugins/input_raspicam/input_raspicam.c:400-419 | The end of a frame publishes the assembled bytes with their length and gives the lock up, a misuse exactly if it was not held |
| Raspicam.EmptyFrame | mjpg-streamer-master/mjpg-streamer-experimental/plugins/input_raspicam/input_raspicam.c:400-419 | A frame that ends without a byte, the input that breaks the lock discipline |
| Raspicam.Encoder.Recycle | mjpg-streamer-master/mjpg-streamer-experimental/plugins/input_raspicam/input_raspicam.c:426-453 | The header goes back to the pool and, while the port is open, one goes from there to the port; it stays out of both only if the port refuses it |
| IoBuffer.Reader.Refill | mjpg-streamer-master/mjpg-streamer-experimental/plugins/output_http/httpd.c:144-158 | A short read is moved to the end of the buffer without losing or reordering a byte, the regions overlapping or not |
| IoBuffer.Reader.TakePending | mjpg-streamer-master/mjpg-streamer-experimental/plugins/output_http/httpd.c:123-127 | The first n pending bytes are appended to the output and the others stay pending |
| IoBuffer.Peer.Read | mjpg-streamer-master/mjpg-streamer-experimental/plugins/output_http/httpd.c:152 | What each state of the socket yields: a non-empty prefix of at most 256 unread bytes, the end, or an error without loss |
| IoBuffer.Reader.Pass | mjpg-streamer-master/mjpg-streamer-experimental/plugins/output_http/httpd.c:122-159 | One pass hands out pending bytes, and either is done, or is stopped where no more bytes can be reached, or goes on with the same bytes reachable |
| IoBuffer.Reader.Read | mjpg-streamer-master/mjpg-streamer-experimental/plugins/output_http/httpd.c:114-162 | len bytes of the peer's stream are handed out if and only if that many arrive before the first timeout, end or error; otherwise all that arrive, with their number as result after a timeout and -1 after an end or error; the rest of the stream stays, for any chunking |
| IoBuffer.Reader.ReadByte | mjpg-streamer-master/mjpg-streamer-experimental/plugins/output_http/httpd.c:189 | A byte is returned exactly when one can be reached, and it is the next |
| IoBuffer.Reader.ReadLine | mjpg-streamer-master/mjpg-streamer-experimental/plugins/output_http/httpd.c:181-197 | A line is returned if and only if a whole one arrives before the first timeout, end or error; it ends at the first newline or the limit and the reader stands exactly behind it; otherwise the result is -1 and exactly the bytes that arrived are lost |
| IoBuffer.Reader.ReadHeader | mjpg-streamer-master/mjpg-streamer-experimental/plugins/output_http/httpd.c:1271-1288 | Of a stream that holds lines of three bytes to the limit, an empty line CR LF and a rest: the header is read if and only if all of it including the empty line can be reached, and then exactly the rest is left; on any stream the lines are its first ones in order, up to the first that is short or empty, and the loop fails exactly at the first that does not arrive |
| IoBuffer.Reader.HeaderLoop | mjpg-streamer-master/mjpg-streamer-experimental/plugins/output_http/httpd.c:1271-1288 | The loop itself: successive calls return the first lines in order and leave exactly the rest |
| IoBuffer.HeaderIsRead | mjpg-streamer-master/mjpg-streamer-experimental/plugins/output_http/httpd.c:1267-1288 | Whatever reads lines up to the first ending one stops exactly behind the empty line that ends the header, not before and not after |
| IoBuffer.LineIs | mjpg-streamer-master/mjpg-streamer-experimental/plugins/output_http/httpd.c:188-196 | The bytes up to the first newline or the limit are the first line of the stream |
| IoBuffer.NextLine | mjpg-streamer-master/mjpg-streamer-experimental/plugins/output_http/httpd.c:1271-1288 | The line behind the first k lines is line k + 1 of the stream |
| IoBuffer.LinesConcatenate | mjpg-streamer-master/mjpg-streamer-experimental/plugins/output_http/httpd.c:181-197 | The lines of a stream, an unfinished last one included, put together are the stream |
| Base64.DecodeBase64 | mjpg-streamer-master/mjpg-streamer-experimental/plugins/output_http/httpd.c:207-242 | Decoding in place gives the decoding of the original text, terminated, never writes past what has been read and changes nothing behind |
| Base64.OneMore | mjpg-streamer-master/mjpg-streamer-experimental/plugins/output_http/httpd.c:214-240 | One more character keeps the accumulator equal to the pending values and, with a fourth value, yields exactly the three bytes of the group |
| Base64.PushSextet | mjpg-streamer-master/mjpg-streamer-experimental/plugins/output_http/httpd.c:232 | Shifting a value into the 32-bit accumulator appends its six bits below the pending ones |
| Base64.GroupDone | mjpg-streamer-master/mjpg-streamer-experimental/plugins/output_http/httpd.c:234-238 | The three bytes taken out of the accumulator are the 24 bits of the last four values, whatever older bits stand above |
| Base64.EncodeDecode | mjpg-streamer-master/mjpg-streamer-experimental/plugins/output_http/httpd.c:207-242 | Decoding the encoding of section 4 of RFC 4648 of any bytes returns them, followed by one zero byte for each = |
| Base64.OthersSkipped | mjpg-streamer-master/mjpg-streamer-experimental/plugins/output_http/httpd.c:217-230 | A character that is no letter, digit, +, / or = is skipped, wherever it stands |
| Base64.DecodedLength | mjpg-streamer-master/mjpg-streamer-experimental/plugins/output_http/httpd.c:232-239 | Each complete group of four characters gives three bytes, and a shorter rest none |
| Base64.GroupNumber | mjpg-streamer-master/mjpg-streamer-experimental/plugins/output_http/httpd.c:232-238 | Four characters are one number of 24 bits, and the three bytes they give are the same number |
| Base64.AlphabetOrder | mjpg-streamer-master/mjpg-streamer-experimental/plugins/output_http/httpd.c:217-228 | Letters, digits, + and / stand for 0 to 63 in the order of RFC 4648 |
| Unescape.Unescape | mjpg-streamer-master/mjpg-streamer-experimental/plugins/output_http/httpd.c:268-306 | Succeeds exactly when every % that is reached is followed by two hex digits, then leaves the decoded text and terminator; bytes behind the write position are untouched |
| Unescape.Replace | mjpg-streamer-master/mjpg-streamer-experimental/plugins/output_http/httpd.c:270-303 | The loop and the terminator: the first bytes are the decoded text, all others are still the original ones, so nothing not yet read has been overwritten |
| Unescape.PutEscape | mjpg-streamer-master/mjpg-streamer-experimental/plugins/output_http/httpd.c:292-296 | An escape is replaced at or before its own place by the byte its two digits denote; both digits are read intact although the first half is written between |
| Unescape.EscapeStep | mjpg-streamer-master/mjpg-streamer-experimental/plugins/output_http/httpd.c:287-296 | The loose bound test is safe: the terminator is no hex digit, so an escape cut off by the end is refused |
| Unescape.EncodeDecode | mjpg-streamer-master/mjpg-streamer-experimental/plugins/output_http/httpd.c:268-306 | Decoding any percent-encoding of a string (section 2.1 of RFC 3986, either case, optional escapes) returns the string |
| Unescape.DecodeEncode | mjpg-streamer-master/mjpg-streamer-experimental/plugins/output_http/httpd.c:268-306 | Nothing else is accepted: every text that is decoded is a percent-encoding of the result |
| Unescape.HexDigitsOnly | mjpg-streamer-master/mjpg-streamer-experimental/plugins/output_http/httpd.c:249-261 | The digits are 0 to 9, a to f and A to F and no other character |
| Unescape.TwoDigits | mjpg-streamer-master/mjpg-streamer-experimental/plugins/output_http/httpd.c:292-296 | Two digits, in either case, are a number of base 16 |
| DhtSplice.IsHuffman | mjpg-streamer-master/mjpg-streamer-experimental/plugins/input_uvc/v4l2uvc.c:574-587 | True exactly when a DHT marker stands at one of the first 2049 offsets with no SOS marker before it; the frame's size plays no part |
| DhtSplice.TableInBytes | mjpg-streamer-master/mjpg-streamer-experimental/plugins/input_uvc/v4l2uvc.c:574-587 | In bytes: FF C4 at one of the first 2049 offsets and FF DA nowhere before |
| DhtSplice.MemcpyPicture | mjpg-streamer-master/mjpg-streamer-experimental/plugins/input_uvc/v4l2uvc.c:594-615 | The output is the frame, the frame with the table inserted before its first SOF0 marker, or nothing, and the rest of the output buffer is untouched |
| DhtSplice.CutInBytes | mjpg-streamer-master/mjpg-streamer-experimental/plugins/input_uvc/v4l2uvc.c:601-604 | The cut is at the first FF C0, or at the frame's end when there is none |
| DhtSplice.AppendSpliced | mjpg-streamer-master/mjpg-streamer-experimental/plugins/input_uvc/v4l2uvc.c:608-610 | The three copies lie one behind the other and touch nothing behind them |
| DhtSplice.RemoveTable | mjpg-streamer-master/mjpg-streamer-experimental/plugins/input_uvc/v4l2uvc.c:599-610 | A spliced frame is 420 bytes longer, and taking those bytes out at the cut restores the input |
| DhtSplice.TableFoundAgain | mjpg-streamer-master/mjpg-streamer-experimental/plugins/input_uvc/v4l2uvc.c:574-587 | The spliced table is found again exactly when the cut is at offset 2048 or before and no SOS stands before it |
| DhtSplice.Idempotent | mjpg-streamer-master/mjpg-streamer-experimental/plugins/input_uvc/v4l2uvc.c:594-615 | Applying memcpy_picture to its own output changes nothing if and only if the cut is at most 2048 and no SOS is before it |
| DhtSplice.SecondTable | mjpg-streamer-master/mjpg-streamer-experimental/plugins/input_uvc/v4l2uvc.c:594-615 | Otherwise a second copy of the table goes in directly behind the first |
| DhtSplice.TwoTables | mjpg-streamer-master/mjpg-streamer-experimental/plugins/input_uvc/v4l2uvc.c:594-615 | A frame of 2053 bytes whose only marker is an SOF0 at offset 2049 gets two tables |
| DhtSplice.OwnTableKept | mjpg-streamer-master/mjpg-streamer-experimental/plugins/input_uvc/v4l2uvc.c:611-613 | A frame with its own table in reach is copied unchanged, again and again |
| StandardTables.DhtDataShape | mjpg-streamer-master/mjpg-streamer-experimental/plugins/input_uvc/huffman.h:26-62 | The table is 420 bytes, starts with the DHT marker and has no other FF byte |
| StandardTables.StandardTablesLegal | mjpg-streamer-master/mjpg-streamer-experimental/plugins/input_uvc/huffman.h:26-62 | The autofocus decoder loads the inserted segment into four legal, prefix-free tables, whatever its arrays held before |
| StandardTables.SymbolsY | mjpg-streamer-master/mjpg-streamer-experimental/plugins/input_uvc/huffman.h:26-62 | The 162 luminance AC values are exactly EOB, ZRL and all pairs of up to fifteen zeros with one to ten bits |
| StandardTables.SymbolsC | mjpg-streamer-master/mjpg-streamer-experimental/plugins/input_uvc/huffman.h:26-62 | So are the 162 chrominance AC values |
| FileRing.Worker.MaintainRingbuffer | mjpg-streamer-master/mjpg-streamer-experimental/plugins/output_file/output_file.c:153-196 | Removes exactly the oldest n - size listed files, except those unlink fails on, and frees every list entry exactly once, in order |
| FileRing.Worker.StoreFrame | mjpg-streamer-master/mjpg-streamer-experimental/plugins/output_file/output_file.c:258-325 | An iteration adds the new file, whatever its name, and when the schedule says so keeps only the newest ones and those unlink fails on, or all if scandir fails; files that are not the plugin's are never touched |
| FileRing.FirstCleanUps | mjpg-streamer-master/mjpg-streamer-experimental/plugins/output_file/output_file.c:319-322 | Clean-ups come after every file, or, if the size may be exceeded, after the first file and after file exceed + 1, and not between |
| FileRing.NextCleanUp | mjpg-streamer-master/mjpg-streamer-experimental/plugins/output_file/output_file.c:322 | From then on a clean-up comes after every exceed + 1 files |
| FileRing.Worker.CleanUp | mjpg-streamer-master/mjpg-streamer-experimental/plugins/output_file/output_file.c:319-325 | The folder's listing afterwards is its newest part behind what could not be deleted, and other files stay |
| FileRing.Worker.StoreAll | mjpg-streamer-master/mjpg-streamer-experimental/plugins/output_file/output_file.c:206-325 | The worker's loop from counter 0 over any names and any failures: after every iteration the folder holds, of the plugin's files, exactly those the run leaves, at most size + max(exceed, 0) if nothing failed; other files stay |
| FileRing.SurvivorsAreGreatest | mjpg-streamer-master/mjpg-streamer-experimental/plugins/output_file/output_file.c:319-325 | For names in any order: a run without failures leaves the greatest `size` names there were at the last clean-up, and all names since, at most size + max(exceed, 0) in all |
| FileRing.SurvivorsAreNewest | mjpg-streamer-master/mjpg-streamer-experimental/plugins/output_file/output_file.c:319-325 | When the names ascend these are exactly the newest files, and their number is exact |
| FileRing.NewestAdded | mjpg-streamer-master/mjpg-streamer-experimental/plugins/output_file/output_file.c:171-193 | Cleaning up before and after a new file leaves the same as cleaning up after it only |
| FileRing.Recovers | mjpg-streamer-master/mjpg-streamer-experimental/plugins/output_file/output_file.c:153-196 | A clean-up without failures leaves at most size files, whatever failed before |
| FileRing.NewFileLost | mjpg-streamer-master/mjpg-streamer-experimental/plugins/output_file/output_file.c:153-196 | With room for one file, the picture with counter 1000000000 is deleted as soon as it is stored and 999999999 stays |
| FileRing.OneListing | mjpg-streamer-master/mjpg-streamer-experimental/plugins/output_file/output_file.c:163 | A folder has only one sorted listing |
| FileRing.Worker.Scandir | mjpg-streamer-master/mjpg-streamer-experimental/plugins/output_file/output_file.c:163 | Stands for scandir with alphasort: the matching names in order, each once |
| FileNames.LaterSecond | mjpg-streamer-master/mjpg-streamer-experimental/plugins/output_file/output_file.c:259-266 | Names of different seconds sort by time, whatever the counters |
| FileNames.NameSays | mjpg-streamer-master/mjpg-streamer-experimental/plugins/output_file/output_file.c:259-266 | A name in full: year in four digits, month, day, hour, minute and second in two, all read back as the time's numbers, then `_picture_`, the counter in nine digits or, without leading zeros, more, and `.jpg` |
| FileNames.SameSecond | mjpg-streamer-master/mjpg-streamer-experimental/plugins/output_file/output_file.c:259-266 | Two names of one second with counters m < n sort in that order if and only if m, with as many zeros appended as n is printed longer, is at most n; otherwise they sort the other way round |
| FileNames.OneSecondSorts | mjpg-streamer-master/mjpg-streamer-experimental/plugins/output_file/output_file.c:259-266 | The names of one second with counters 0 to N sort if and only if N is below 10^9 |
| FileNames.WrongOrder | mjpg-streamer-master/mjpg-streamer-experimental/plugins/output_file/output_file.c:259-266 | In any second the name with counter 1000000000 is listed before the one with 999999999 |
| FileNames.NamesOfRun | mjpg-streamer-master/mjpg-streamer-experimental/plugins/output_file/output_file.c:259-266 | The later of two frames of a run is listed behind the other exactly if its second is later, or is the same and the counters allow it |
| FileNames.RunSorts | mjpg-streamer-master/mjpg-streamer-experimental/plugins/output_file/output_file.c:258-267 | Whatever the clock does, all names of a run sort if and only if each two of its frames do by that condition |
| FileNames.ShortRunSorts | mjpg-streamer-master/mjpg-streamer-experimental/plugins/output_file/output_file.c:258-267 | With a clock that does not go back, the names of up to 10^9 frames sort |
| FileNames.ClockBack | mjpg-streamer-master/mjpg-streamer-experimental/plugins/output_file/output_file.c:250-266 | If the clock goes back between two frames, they are listed the wrong way round |
| FileNames.ClockGoesBack | mjpg-streamer-master/mjpg-streamer-experimental/plugins/output_file/output_file.c:250-266 | An instance: the hour that comes twice at the end of summer time |
| Pixels.ConvertRow | mjpg-streamer-master/mjpg-streamer-experimental/plugins/input_uvc/jpeg_utils.c:170-200 | A row started in the middle of a macropixel converts the right pixels and hands on the right position |
| Pixels.Convert | mjpg-streamer-master/mjpg-streamer-experimental/plugins/input_uvc/jpeg_utils.c:168-202 | A frame of two bytes per pixel, and two more when the number of pixels is odd, is enough; row i of the output shows the pixels from i * width on, also where a macropixel spans two rows: in YUYV pixel k takes its luminance from byte 0 or 2 of its macropixel and its chrominance from bytes 1 and 3, in UYVY from 1 or 3 and from 0 and 2, each colour limited to 0 and 255 |
| Pixels.PixelsAt | mjpg-streamer-master/mjpg-streamer-experimental/plugins/input_uvc/jpeg_utils.c:170-200 | Pixel x of a converted row is global pixel k + x: its own luma and its macropixel's chroma |
| Pixels.SwappedFrame | mjpg-streamer-master/mjpg-streamer-experimental/plugins/input_uvc/jpeg_utils.c:240-274 | UYVY conversion of a frame with the bytes of each pair exchanged is YUYV conversion |
| Pixels.PixelsShow | mjpg-streamer-master/mjpg-streamer-experimental/plugins/input_uvc/jpeg_utils.c:170-200 | Every pixel of a converted row shows the luminance and the chrominance of these bytes |
| Pixels.CloseToBt601 | mjpg-streamer-master/mjpg-streamer-experimental/plugins/input_uvc/jpeg_utils.c:183-192 | Every output byte is the colour of ITU-R BT.601 limited to a byte, to within one step of rounding down and a fifth of a step |
| Pixels.OrangeRed | mjpg-streamer-master/mjpg-streamer-experimental/plugins/input_uvc/jpeg_utils.c:183-192 | An instance: the YUYV macropixel 128, 128, 128, 255 is orange red |
| Destination.Manager.Emit | mjpg-streamer-master/mjpg-streamer-experimental/plugins/input_uvc/jpeg_utils.c:74-87 | Output so far plus staged bytes is all that was emitted, also across a flush of the full 4096-byte buffer |
| Destination.Manager.Flush | mjpg-streamer-master/mjpg-streamer-experimental/plugins/input_uvc/jpeg_utils.c:78-80 | The first n staged bytes are appended to the output, cursor and written advance together, and nothing behind changes |
| Destination.Manager.Term | mjpg-streamer-master/mjpg-streamer-experimental/plugins/input_uvc/jpeg_utils.c:94-103 | Afterwards `written` is the number of emitted bytes and the output is those bytes |
| Destination.Manager.Compress | mjpg-streamer-master/mjpg-streamer-experimental/plugins/input_uvc/jpeg_utils.c:56-103 | A whole picture ends up in the output exactly, with nothing behind it changed |

## Left out

- `pi_code` and `Pi_Controlcmd`: GPIO, serial and I2C access, sines and sleep loops.
- `www`, CMake files and the MMAL headers: user interface and declarations; of MMAL only release, get and send are assumed.
- V4L2, OpenCV, gphoto2, SDL, ZeroMQ and libjpeg's internals: foreign calls; `jpeg_utils.c` is modelled up to what it hands to libjpeg and receives from it.
- Socket set-up, `select` errors (the process exits), accept, daemonising, signals, options, CGI and file serving.
- JSON descriptors, command dispatch and error pages: string plumbing.
- The Gaussian weights and sharpness sums of `getFrameSharpnessValue` (floating point), its marker scanning and frame-size arithmetic: the model begins at a DHT payload and at the first scan byte.
- RGB24 and RGB565 conversion: a copy and a bit selection without carried state.
- `raspicamcontrol_cycle_test`, `xref` maps and pan/tilt clamping: finite or easy.
- Memory exhaustion, thread cancellation, failed socket writes and client management: the paths that end a thread.
- Timestamps of frames: they are printed and otherwise not used; the printer takes any.
- Scan.ReadTable: does not model overflow of the 32-bit DC sum, which needs differences no encoder produces for one image.
- FileRing.Worker.StoreAll: does not model the 64-bit wrap-around of the counter, which 2^64 frames would take.
- Raspicam.Encoder.Callback: a callback without user data only recycles its header and is not modelled; nor is what unlocking a mutex held by somebody else does to its holder.
- Unescape.Unescape: on failure only the bytes behind the write position are specified; the caller discards the string.
- Handover.HandOver: liveness (that a waiting consumer is eventually served) is not stated, as the scheduler is not modelled.
