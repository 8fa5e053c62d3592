# HLV codecs: a verified model

This project models the delicate parts of a retro video stack and proves what
they are for.

**BPV1 versions 6 and 7.** A frame is a map of 2-bit modes and a list of
records. Each 4x4 block is SKIP (as in the previous frame), MOTION (a vector of
up to seven pixels), DICTIONARY (an index into a first-in first-out list of
recent blocks) or RAW (2, 4, 7 or 9 bytes). Version 6 moves whole blocks,
version 7 moves reconstructed RGB565 pixels.

| file | part |
|---|---|
| `BpvBits`, `BpvModes` | bit strings, the packed mode map, its two readers |
| `BpvBlock`, `BpvRaw` | canonical blocks and their RAW records |
| `BpvDictionary` | the plain list, the ring, the ring with hash chains |
| `BpvCodec`, `BpvStream`, `BpvVideo` | the stream as functions; decoding undoes encoding |
| `BpvExample` | one whole video, byte by byte |
| `BpvEncoder`, `BpvDecoder` | the loops of both codecs, proved against those functions |
| `BpvPixels`, `BpvRing` | the C decoder's in-place reconstruction through a ring of three block rows |
| `BpvAgree` | the C decoder's packets and the JavaScript decoder's frames |
| `BpvHeader` | the C decoder's file and frame headers against the JavaScript ones |
| `BpvPicture`, `BpvRuns`, `BpvReuse` | the picture that direct output computes for every stream, over whole runs of frames, and exactly when it is the right one |
| `BpvReader`, `BpvStrips`, `BpvPlayback` | the 4096-byte refill reader, two-strip direct output, and videos played from encoder to display |
| `BpvLossy`, `BpvGopPlan`, `BpvGops`, `BpvWorkers` | the C encoder: its closed loop, the plan of groups, concurrent workers, audio |
| `BpvScreen` | files of the C encoder, with audio, played through the strips |

The stream is specified against an untouched copy of the previous frame. The C
decoder has no such copy: it overwrites the reference while it still reads it.
`DecodePixelMotionFrame` shows that the three-row ring hides this in every
accepted frame. Direct output does not always: a strip reaches the reference
when its buffer is handed out again, and later vectors may read it.
`DecodeStrips` proves, for all streams and all orders of buffers, which frames
are accepted and that the picture is `StripFrame`, each strip decoded against
the mixed reference of its turn. `RightExactlyWhenApart` and `TwoBuffers` say
for which buffers that is always the right picture. `PlayVideo` and `PlayFile`
put the pieces together, from either encoder to the pixels on the display.

**Smaller cores.** `ImaAdpcm` (block codec: lock step and error bounds),
`CompactYuv`, `CompactPack`, `CompactCorrection`, `CompactPlane` (packed planes
whose 8x8 averages survive quantizing), `Amr3gp` (the incremental sample-table
walk against the closed forms of ISO/IEC 14496-12, sections 8.6.1.2, 8.7.3,
8.7.4 and 8.7.5), `UartUpload` (the sliding-window uploader against any stream
of events), `AviDemux` (the packet walker, over any file and over
written lists) and `VlcTree` (the table builder and
the decoder that walks its tables). `Bytes` and `Arithmetic` are shared.

**How it is modelled.** Bytes are integers from 0 to 255; shifts and masks are
divisions and remainders; wrap-around is written out where the code depends on
it (32-bit hashes and size fields, the unsigned subtraction of the ADPCM
starting step, `int8_t` conversions, the 64-bit box arithmetic). An exception or
error code is the failure of an `Outcome` or a status. Objects that the source
updates are classes, buffers are arrays, files are byte sequences with a cursor.
The error measure of the C encoder, the scene scores, the speech decoder's
verdict, the uploader's responses and timeouts, the display buffers handed out,
and the interleaving of worker threads are arbitrary inputs: the theorems hold
for all of them.

**Where the code is not what one would first state**

- The strip decoder never compares a vector with the header's search radius,
  which its guard relies on. In a 4x12 video with radius 3, strips of four rows
  and buffers A, B, A, the frame after a black keyframe has a vector of five rows
  that reads pixels already overwritten (`ReuseExample`). With buffers in any
  order, all runs of frames from a fresh decoder whose vectors stay within
  `reach` rows come out right if and only if every buffer comes back at least
  `reach` rows below its old strip (`RightExactlyWhenApart`). The guard ensures
  that for the header's radius (`GrantedApart`), which both encoders keep to
  (`EncodedVectors`, `LossyVectors`). With two buffers in turn and any radius,
  every run comes out right if and only if strips have at least eight rows or the
  frame is at most eight rows high (`TwoBuffers`). Which frames are accepted
  never depends on it (`RunsAlike`). The three-row ring is right for every vector
  a record can hold (`RingReach`).
- The C decoder refuses a header with a zero frame rate, which `encodeVideo`
  writes for rates that are multiples of 65536: encoded videos play exactly
  when neither 16-bit rate field comes out zero (`EncodedAccepted`,
  `RateExample`, `PlayVideo`).
- Beyond that, the two decoders differ only in ADPCM headers, other zero header
  fields, keyframe flags above 1, and audio beyond the header's limit
  (`HeadersAgree`, `DecodersAgree`, `FilesAgree`).
- A frame that ends in an error may leave the version 7 reference partly
  overwritten; the theorems speak of accepted frames, and say exactly which
  frames those are.
- Reading a RAW record and writing it again is the identity unless it is a
  one-colour record with a nonzero spare nibble (`ReadThenWrite`).
- Appending to the dictionary unseen is right exactly for new blocks or a list
  of one entry (`PushIsAddUnique`); the encoder sends RAW only for new blocks
  (`ChoiceApplies`).
- The comment that packed corrections lie between -8 and 14 sixteenths does not
  bound what the packer produces: for full blocks, luma entries range from -32
  to 48 and chroma entries from -64 to 112, and both ends are reached
  (`CorrectionRange`, `RangeReached`). The branch it justifies is right up to
  seven bits all the same, and wraps for a sample of 255 with eight
  (`SpanAgrees`).
- Corrections fit in a signed byte from five bits on and not below
  (`FitsFromFive`).
- The ADPCM starting step is a nearest one exactly up to a target of 32767
  (`NearestStep`).
- A `stsz`, `stco`, `co64`, `stsc` or `stts` box shorter than its own table
  header passes the room test, because the 64-bit subtraction wraps
  (`RoomTest`). An accepted table lies inside its box exactly when the box has
  room for the header (`SizesInsideBox`, `ChunksInsideBox`, `RunsInsideBox`,
  `TimesInsideBox`).
- AVI walks for one stream and for both stop with different statuses exactly
  when they meet a chunk of the other stream whose end the platform's file
  offsets cannot express: a seek error for the one, a range error for the other
  (`Projection`, `OverlongExample`).
- Empty codes pass the VLC builder unnoticed and are never found; every
  statement about it is about the non-empty ones. Codes longer than 30 bits are
  written but never decoded (`CodeDecoded`). A code with bits behind entry 32767
  would not survive the 16-bit table (`RowsStored`).
- The C decoder refuses a file with ADPCM audio, from its first frame on, when
  the frame duration, rounded up to samples, exceeds a block, although the
  encoder writes such a file if each frame's own samples fit (`AudioFits`,
  `FirstRefused`, `RefusedAudioExample`).
- The JavaScript decoder refuses audio codec 2 (IMA ADPCM), which
  `BPV1_FORMAT_ru.md` and the C decoder allow; the model follows the code.

## Model

| member | source | states |
|---|---|---|
| BpvPlayback.PlayVideo | codecs/bpv/src/bpv1_decode.c:1854-2120 | From encodeVideo to the display: an encoded v7 video plays through header reader, refill reader, ring dictionary and two alternating strips if and only if its frame rate survives the header's 16-bit fields, it has the frames asked for, and the strips are multiples of four rows higher than the search radius; then every display pixel shows the colour that its source block gives it under the palette: its top five, middle six and low five bits are the leading bits of red, green and blue |
| BpvScreen.PlayFile | codecs/bpv/src/bpv1_decode.c:1854-2120 | A v7 file of the C encoder, header and audio included, plays through the same decoder if and only if it has the frames asked for, the strips are high enough, and, for ADPCM, a frame's samples rounded up fit in a block; whatever its error measure decided, every display pixel is then the encoder's own reconstruction |
| BpvReuse.RightExactlyWhenApart | codecs/bpv/src/bpv1_decode.c:1952-1966 | For any order of buffers: direct output leaves every run of frames from a fresh decoder, vectors within a reach, as untouched previous frames would if and only if each buffer comes back at least that reach below its old strip |
| BpvReuse.TwoBuffers | codecs/bpv/src/bpv1_decode.c:1952-1966 | For two buffers in turn: every run of frames from a fresh decoder comes out right if and only if strips have at least eight rows or the frame is at most eight rows high |
| BpvReuse.WrongWhenNear | codecs/bpv/src/bpv1_decode.c:1359-1376 | For any buffer that comes back too soon: a keyframe and one more frame, vectors within the reach, after which a named pixel differs |
| BpvReuse.ReuseExample | codecs/bpv/src/bpv1_decode.c:1952-1966 | The smallest case: 4x12 pixels, radius 3, strips of four rows, buffers A, B, A. Guard and slot search take every strip, a fresh decoder accepts keyframe and next frame either way, and the last block's first pixel is new white instead of old black |
| BpvReuse.TwoApart | codecs/bpv/src/bpv1_decode.c:1952-1966 | Two buffers in turn are a given reach apart exactly if it is at most the strip height or the frame has at most two strips |
| BpvRuns.RunsSame | codecs/bpv/src/bpv1_decode.c:1952-1966 | With buffers as far apart as the vectors reach, every run of frames comes out right |
| BpvRuns.RunsAlike | codecs/bpv/src/bpv1_decode.c:1332-1417 | Over whole runs the buffers never decide which frames are accepted, even after a wrong picture |
| BpvRuns.KeyframesRight | codecs/bpv/src/bpv1_decode.c:1896-1899 | A keyframe comes out right with any buffers |
| BpvPicture.SameOutcome | codecs/bpv/src/bpv1_decode.c:1332-1417 | Acceptance, dictionary and record length of a frame never depend on the buffers; only pixels can |
| BpvPicture.RightWhenApart | codecs/bpv/src/bpv1_decode.c:1359-1376 | With buffers as far apart as the stream's vectors reach, the strips' picture is that of an untouched previous frame |
| BpvPicture.SevenAlways | codecs/bpv/src/bpv1_decode.c:1354-1362 | No vector that a record can hold reaches more than seven rows |
| BpvVideo.RoundTrip | codecs/bpv/src/bpv1-codec.js:33-504 | For every accepted video, option set and either build of the dictionary, decoding the encoded bytes succeeds, consumes every byte and returns the header and every frame's contents in order |
| BpvVideo.BlocksReturned | codecs/bpv/src/bpv1-codec.js:328-494 | v6: frame i of the decoded video holds the canonical form of each source block |
| BpvVideo.PixelsReturned | codecs/bpv/src/bpv1-codec.js:757-775 | v7: each decoded pixel of each frame shows the colour of its source block, channel by channel, although SKIP and MOTION copied reconstructed pixels and carried no block |
| BpvCodec.Rgb565Shows | codecs/bpv/src/bpv1_decode.c:467-471 | A display pixel shows a colour: red in its five top bits, green in six, blue in the five low ones, each the channel's leading bits; no other pixel value does (`ShownOnce`) |
| BpvVideo.FramesRoundTrip | codecs/bpv/src/bpv1-codec.js:78-204 | After any number of frames the decoder has the encoder's state (its own reconstruction, dictionary, palette), the expected frames, and the offset behind what was written |
| BpvExample.EncodedMovie | codecs/bpv/src/bpv1-codec.js:33-210 | Three frames of two blocks with every mode, byte by byte: header, palette, mode maps, a vector, a dictionary index and three kinds of RAW records stand exactly where the format puts them |
| BpvExample.RecordsAre | codecs/bpv/src/bpv1-codec.js:587-615 | The four RAW records of one, two, four and sixteen colours, byte by byte |
| BpvVideo.KeyframesEvery | codecs/bpv/src/bpv1-codec.js:78-84 | The flag in front of frame n is one exactly when n is a multiple of the keyframe interval |
| BpvStream.KeyframesAlone | codecs/bpv/src/bpv1-codec.js:78-84 | Keyframes stand alone: neither their bytes nor what they decode to depends on anything before them |
| BpvVideo.EncodeAccepts | codecs/bpv/src/bpv1-codec.js:33-60 | encodeVideo accepts exactly the videos whose sizes, options, palette, block counts and blocks are in the ranges spelled out; in every other case it fails |
| BpvStream.FrameRoundTrip | codecs/bpv/src/bpv1-codec.js:179-197 | One encoded frame, with anything around it, decodes to its contents and leaves the decoder in the encoder's state |
| BpvStream.BlocksRoundTrip | codecs/bpv/src/bpv1-codec.js:92-177 | After every block both sides hold equal dictionaries and the decoder stands behind the records written so far |
| BpvStream.ChoiceApplies | codecs/bpv/src/bpv1-codec.js:97-156 | The mode the encoder chooses is writable, applies in the decoder to exactly the wanted content, updates both dictionaries alike, and is RAW only for a block that the dictionary does not have |
| BpvStream.ChoiceIs | codecs/bpv/src/bpv1-codec.js:97-156 | Each mode by its own condition: SKIP exactly when the previous frame has the content in place; else MOTION exactly when some tried vector finds it, and then the first such one; else DICTIONARY exactly when the list has the block, at its last index; else RAW with the block itself |
| BpvStream.SearchIs | codecs/bpv/src/bpv1-codec.js:617-668 | The search succeeds exactly when some nonzero vector of the square finds the content, and returns the first one in the order of squares, rows and columns |
| BpvStream.DictionaryIsNewest | codecs/bpv/src/bpv1-codec.js:139-164 | After every block the dictionary is the newest part of what it was and the RAW blocks since, up to the limit; no other mode changes it |
| BpvStream.RebuildIsContents | codecs/bpv/src/bpv1-codec.js:757-775 | v7: the encoder's own reconstruction, copied by mode from its own previous pixels, never throws and is the frame it was given, after every block |
| BpvStream.ChoiceRebuilds | codecs/bpv/src/bpv1-codec.js:757-775 | Whatever mode is chosen, the copy lies inside the previous frame and gives the block's content |
| BpvCodec.SearchMeaning | codecs/bpv/src/bpv1-codec.js:617-668 | The ring-by-ring scan returns the first matching vector of the scan order within the radius, and fails only when none matches |
| BpvCodec.CodingRoundTrip | codecs/bpv/src/bpv1-codec.js:587-615 | Each record is read back from its own bytes under its mode, whatever follows |
| BpvCodec.ReadCodingEmbedded | codecs/bpv/src/bpv1_decode.c:1419-1487 | A record read from a copied packet equals the record read from the whole input, cut where the packet ends |
| BpvStream.PaletteRoundTrip | codecs/bpv/src/bpv1-codec.js:181-187 | The 3072 palette bytes of a keyframe are read back as the palette |
| BpvVideo.HeaderRoundTrip | codecs/bpv/src/bpv1-codec.js:57-71 | The written file header passes the decoder's checks and gives every field back |
| BpvAgree.NoStreamInFront | codecs/bpv/src/bpv1-codec.js:212-504 | Accepted streams delimit themselves: a stream followed by any bytes is refused, because frames and header do not depend on what follows them; an accepted stream has as many frames as its header says, and at least one |
| BpvModes.ModesRoundTrip | codecs/bpv/src/bpv1-codec.js:812-824 | Every mode is read back from the packed mode map |
| BpvModes.PackModesLoop | codecs/bpv/src/bpv1-codec.js:812-817 | The bit-by-bit loop over a zeroed map produces the packed map |
| BpvModes.PackedBit | codecs/bpv/src/bpv1-codec.js:812-817 | Which bit of the map belongs to which mode |
| BpvBits.WriteBits | codecs/bpv/src/bpv1-codec.js:826-831 | Writing into a zeroed stretch stores the value's bits there and leaves every other bit of the array alone |
| BpvModes.ModeReader.Read | codecs/bpv/src/bpv1_decode.c:619-628 | The shift-register reader, refilled a byte at a time and never masked, returns mode number n on its n-th call |
| BpvDecoder.UnpackModes | codecs/bpv/src/bpv1-codec.js:819-824 | Modes read ahead of the records are those of the map; bytes missing at the end of the input read as zero |
| BpvBlock.CanonicalizeMeaning | codecs/bpv/tools/bpv1enc.c:1281-1336 | Canonicalising keeps the palette, all sixteen pixel colours and the selectors' order; the result has dense selectors and zero unused colours, and stays direct exactly with five colours or more |
| BpvBlock.CanonicalUnique | codecs/bpv/tools/bpv1enc.c:1281-1336 | A canonical block is determined by its palette, kind, pixel colours and selector order |
| BpvBlock.CanonicalizeFixpoint | codecs/bpv/src/bpv1-codec.js:859-883 | A block is unchanged by canonicalising exactly when it is canonical; canonicalising is idempotent |
| BpvBlock.DistinctIsRank | codecs/bpv/tools/bpv1enc.c:1162-1168 | The used-colour count of a direct block is the number of its distinct colours |
| BpvEncoder.CompactSelectors | codecs/bpv/tools/bpv1enc.c:1281-1336 | The renumbering loop yields dense, order-preserving selectors and the used colours moved to the front |
| BpvEncoder.CanonicalizeBlock | codecs/bpv/src/bpv1-codec.js:859-883 | The canonicalising loops compute the canonical form |
| BpvEncoder.CountColors | codecs/bpv/tools/bpv1enc.c:1162-1168 | Collecting nibbles counts the distinct colours |
| BpvRaw.RawRoundTrip | codecs/bpv/tools/bpv1enc.c:1378-1404 | Every canonical block is read back from its 2, 4, 7 or 9 bytes, with any bytes following |
| BpvRaw.RawPrefixFree | codecs/bpv/tools/bpv1enc.c:1378-1404 | No canonical record is a prefix of another block's record, so that no two blocks share an encoding |
| BpvRaw.ReadThenWrite | codecs/bpv/src/bpv1_decode.c:563-573 | What is read is canonical, and writing it again gives the same bytes if and only if the record is not a one-colour one with a nonzero low nibble in its second byte |
| BpvRaw.ReadRawCanonical | codecs/bpv/src/bpv1-codec.js:917-974 | Whatever the reader accepts is canonical |
| BpvRaw.ReadRawEmbedded | codecs/bpv/src/bpv1_decode.c:669-728 | A record that ends inside a copied stretch reads the same there; any other is refused |
| BpvRaw.WriteRawSize | codecs/bpv/tools/bpv1enc.c:1338-1404 | Record sizes: 2, 4 or 7 bytes for one, two or more local colours, 9 for a direct block |
| BpvEncoder.WriteRawRecord | codecs/bpv/src/bpv1-codec.js:587-615 | The writing loops produce the record's bytes |
| BpvEncoder.WriteRecord | codecs/bpv/src/bpv1-codec.js:587-615 | A record's bytes behind the output so far |
| BpvEncoder.WriteBitmap | codecs/bpv/src/bpv1-codec.js:976-983 | Sixteen one-bit selectors become two bytes, first pixel in the top bit |
| BpvDecoder.DecodeV6Raw | codecs/bpv/src/bpv1_decode.c:651-728 | Testing lengths piece by piece, the C reader accepts exactly the records the JavaScript reader accepts and leaves the nine-byte form of the same block |
| BpvDecoder.PatternColors | codecs/bpv/src/bpv1_decode.c:537-561 | Highest selector plus one and the set of selectors in use, over all sixteen pairs |
| BpvDecoder.MaskIsDense | codecs/bpv/src/bpv1_decode.c:669-728 | The used mask is all ones below the colour count exactly when the selectors are dense |
| BpvDecoder.DirectColors | codecs/bpv/src/bpv1_decode.c:529-535 | The population count of the used mask is the number of distinct direct colours |
| BpvDecoder.ExpandIsPack | codecs/bpv/src/bpv1_decode.c:575-588 | Doubling the bits of two bitmap bytes is packing the one-bit selectors two bits wide |
| BpvDecoder.UnpackLocalColors | codecs/bpv/src/bpv1_decode.c:563-573 | Stored colour slots by nibbles, the other slots zero |
| BpvDecoder.RecordInjective | codecs/bpv/src/bpv1_decode.c:634-728 | Different canonical blocks have different nine-byte records, so that comparing records compares blocks |
| BpvDictionary.HashDictionary.Add | codecs/bpv/src/bpv1_decode.c:310-350 | Adding to the ring with hash chains is adding to the unique first-in first-out list; live slots stay in exactly one acyclic chain each and no slot is the sentinel |
| BpvDictionary.HashDictionary.FindPhysical | codecs/bpv/src/bpv1_decode.c:278-291 | The chain walk ends and finds a live slot of the value exactly when the list has the value |
| BpvDictionary.HashDictionary.RemovePhysical | codecs/bpv/src/bpv1_decode.c:293-308 | Cuts one live slot out of its chain and leaves every other chain whole |
| BpvDictionary.HashDictionary.TakePosition | codecs/bpv/src/bpv1_decode.c:323-342 | The position for the next entry: the first free one, or the oldest entry's after it left its chain |
| BpvDictionary.HashDictionary.LinkIn | codecs/bpv/src/bpv1_decode.c:343-349 | Storing an entry at a free position and linking it in keeps the chains whole |
| BpvDictionary.HashDictionary.Reset | codecs/bpv/src/bpv1_decode.c:246-257 | Empties the list |
| BpvDictionary.HashDictionary.Entry | codecs/bpv/src/bpv1_decode.c:236-244 | Entry i of the ring is entry i of the list; past the end there is none |
| BpvDictionary.HashDictionary.constructor | codecs/bpv/src/bpv1_decode.c:352-390 | A fresh dictionary is the empty list over a power-of-two bucket array |
| BpvDictionary.HashDictionary.BucketIndex | codecs/bpv/src/bpv1_decode.c:259-267 | The FNV-1a loop, masked, is the hash modulo the bucket count |
| BpvDictionary.HashExample | codecs/bpv/src/bpv1_decode.c:259-267 | The hash gives the published FNV-1a values |
| BpvDictionary.MaskIsRemainder | codecs/bpv/src/bpv1_decode.c:280-281 | Masking with a power of two less one is the remainder |
| BpvDictionary.ChainedInsert | codecs/bpv/src/bpv1_decode.c:343-349 | Putting a free slot in front of its bucket's chain keeps the chain structure |
| BpvDictionary.ChainedRemove | codecs/bpv/src/bpv1_decode.c:293-308 | Redirecting one link keeps the chain structure without the slot |
| BpvDictionary.RingReplace | codecs/bpv/src/bpv1_decode.c:310-350 | Overwriting the oldest entry of a full ring drops the list's first element and appends the new one |
| BpvDictionary.RingDictionary.Add | codecs/bpv/src/bpv1_decode.c:310-350 | The build without hash chains appends unseen |
| BpvDictionary.PushIsAddUnique | codecs/bpv/tools/bpv1-file.js:836-842 | Appending unseen equals the unique append if and only if the value is new or the list holds one entry at most |
| BpvDictionary.AddUniqueKeeps | codecs/bpv/src/bpv1-codec.js:785-788 | The list stays unique and within its bound and holds the added value |
| BpvDictionary.FindExact | codecs/bpv/src/bpv1-codec.js:777-779 | The backward scan returns the highest index of the value, or -1 when it is absent |
| BpvDecoder.RecordListAdd | codecs/bpv/src/bpv1_decode.c:310-350 | The dictionary of records changes exactly as the dictionary of blocks does |
| BpvEncoder.EncodeVideo | codecs/bpv/src/bpv1-codec.js:33-210 | encodeVideo's nested loops, with its range checks, produce the specified stream or fail |
| BpvEncoder.EncodeOneFrame | codecs/bpv/src/bpv1-codec.js:78-199 | One frame's bytes and the state it leaves, its previous pixels those the block loop rebuilt |
| BpvEncoder.WritePalette | codecs/bpv/src/bpv1-codec.js:181-187 | The palette's bytes, three a colour |
| BpvEncoder.NormalizeFrame | codecs/bpv/src/bpv1-codec.js:543-574 | Blocks are range-checked and canonicalised; the first malformed one fails the frame |
| BpvEncoder.EncodeFrameBlocks | codecs/bpv/src/bpv1-codec.js:92-177 | The block loop's records, modes, dictionary and reconstruction |
| BpvEncoder.ChooseRecord | codecs/bpv/src/bpv1-codec.js:97-156 | Mode choice in the order SKIP, MOTION, DICTIONARY, RAW |
| BpvEncoder.ReconstructBlock | codecs/bpv/src/bpv1-codec.js:757-775 | One block's reconstruction by mode, or the error of a copy from outside the frame |
| BpvDecoder.CopySource | codecs/bpv/src/bpv1-codec.js:733-755 | The copy loop of a vector, refused exactly when it leaves the previous frame |
| BpvDecoder.CopyMotion | codecs/bpv/src/bpv1-codec.js:366-398 | A vector's content in both versions: a copied block or copied pixels, refused exactly outside the frame |
| BpvCodec.BlockSource | codecs/bpv/src/bpv1-codec.js:376-379 | A version 6 vector takes the block dx columns to the right and dy rows down, and fails exactly outside the grid |
| BpvCodec.VersionsMoveAlike | codecs/bpv/src/bpv1-codec.js:366-398 | The block vector (dx, dy) of version 6 and the pixel vector (4 dx, 4 dy) of version 7 are accepted alike and take the same picture |
| BpvEncoder.FindMotion | codecs/bpv/src/bpv1-codec.js:617-668 | The nested scan loops return the specified search result for blocks (v6) and for pixels (v7) |
| BpvDecoder.DecodeVideo | codecs/bpv/src/bpv1-codec.js:212-504 | decodeVideo's loops over frames and blocks accept exactly the specified streams of versions 6 and 7 and return header and frames |
| BpvDecoder.DecodeOneBlock | codecs/bpv/src/bpv1-codec.js:328-470 | One block's record, content and dictionary |
| BpvRing.DecodePixelMotionFrame | codecs/bpv/src/bpv1_decode.c:1069-1264 | The three-row ring accepts a packet exactly when decoding against an untouched previous frame accepts it; the reference, overwritten while it is read, then shows the same frame, the dictionary is the same, and each block row was committed once and in order |
| BpvRing.RingReach | codecs/bpv/src/bpv1_decode.c:1117-1131 | Any vector the record can carry stays below the rows already committed, whatever the header's search radius |
| BpvRing.RingBlock | codecs/bpv/src/bpv1_decode.c:1085-1167 | One block in its ring slot: earlier rows of the ring and the reference's split between new and previous rows are kept |
| BpvRing.CommitNext | codecs/bpv/src/bpv1_decode.c:1169-1202 | Committing a row moves the boundary between new and previous rows down by one |
| BpvRing.Flush | codecs/bpv/src/bpv1_decode.c:1205-1238 | The rows still in the ring are committed, each once |
| BpvRing.CommitRow | codecs/bpv/src/bpv1_decode.c:1180-1200 | One block row of the ring replaces the reference's row and no other |
| BpvPixels.PixelDecoder.DecodeBlock | codecs/bpv/src/bpv1_decode.c:1419-1487 | A decoded block succeeds exactly with the abstract step and draws that step's sixteen pixels and nothing else |
| BpvPixels.PixelDecoder.DrawSkip | codecs/bpv/src/bpv1_decode.c:1095-1106 | The block's own region of the previous frame |
| BpvPixels.PixelDecoder.DrawMotion | codecs/bpv/src/bpv1_decode.c:1107-1140 | The region a vector points to, refused exactly when it is not inside the frame |
| BpvPixels.PixelDecoder.DrawEntry | codecs/bpv/src/bpv1_decode.c:1141-1153 | The colours of a dictionary entry, refused exactly past the list's end |
| BpvPixels.PixelDecoder.DrawRaw | codecs/bpv/src/bpv1_decode.c:1154-1164 | The colours of a RAW record, which joins the dictionary |
| BpvPixels.PixelDecoder.DrawVector | codecs/bpv/src/bpv1_decode.c:1107-1140 | The next byte's vector: the moved region, or refusal exactly with the abstract step |
| BpvPixels.DrawRecord | codecs/bpv/src/bpv1_decode.c:486-527 | The record's sixteen table look-ups draw the block's colours and leave the rest of the image |
| BpvPixels.RecordPixel | codecs/bpv/src/bpv1_decode.c:486-527 | The colour read from a nine-byte record is the block's colour at that pixel |
| BpvPixels.CopyBlock | codecs/bpv/src/bpv1_decode.c:433-440 | A 4x4 copy changes the target box to the source region and nothing else |
| BpvAgree.DecodersAgree | codecs/bpv/src/bpv1_decode.c:1038-1068 | On any bytes and from any state: the C decoder accepts a frame through its copied packet if and only if the JavaScript decoder accepts it, the keyframe flag is 0 or 1, and the audio is within the file header's limit; both then end in the same state, with audio and next frame in the same place |
| BpvAgree.FilesAgree | codecs/bpv/src/bpv1_decode.c:1489-1700 | Over whole files the two part only at a frame header with another flag or too much audio |
| BpvAgree.BlocksExtent | codecs/bpv/src/bpv1_decode.c:1419-1487 | The records of a frame start at the payload and take at most nine bytes each, so that an accepted frame never exceeds the packet capacity |
| BpvAgree.BlocksEmbedded | codecs/bpv/src/bpv1_decode.c:1489-1700 | Decoding the copied packet is decoding the whole input, cut where the packet ends |
| BpvReader.PixelStreamReader.Refill | codecs/bpv/src/bpv1_decode.c:1266-1281 | A refill keeps the contiguous cursor and fails only at the payload's end or on a short input |
| BpvReader.PixelStreamReader.Read | codecs/bpv/src/bpv1_decode.c:1283-1302 | Bytes read across any number of refills are the input's bytes at the cursor |
| BpvReader.PixelStreamReader.ReadByte | codecs/bpv/src/bpv1_decode.c:1304-1314 | The next byte of the payload |
| BpvReader.PixelStreamReader.Exhausted | codecs/bpv/src/bpv1_decode.c:2103-2104 | Nothing remaining and nothing available holds exactly when the cursor is at the payload's end |
| BpvStrips.DecodeStrips | codecs/bpv/src/bpv1_decode.c:1879-2119 | For every stream and every order of buffers: the frame is accepted if and only if strip height, flush and input length are right, every strip is served (a buffer that the guard and the slot search take, its transfer accepted), and contiguous decoding against an untouched previous frame accepts it; then reference, dictionary, palette and display are those of StripFrame, each strip decoded against the mixed reference of its turn |
| BpvStrips.DecodeStreamBlock | codecs/bpv/src/bpv1_decode.c:1332-1417 | A block through the refill reader is the same step as from contiguous bytes |
| BpvStrips.StreamRecord | codecs/bpv/src/bpv1_decode.c:1388-1409 | A RAW record taken tag first and then by its size is the record in place |
| BpvStrips.StreamMotion | codecs/bpv/src/bpv1_decode.c:1348-1376 | A vector through the reader: the moved region of the previous frame, or failure exactly with the abstract step |
| BpvStrips.StreamEntry | codecs/bpv/src/bpv1_decode.c:1377-1387 | A dictionary index through the reader draws that entry's block; an index past the list fails |
| BpvStrips.StreamRaw | codecs/bpv/src/bpv1_decode.c:1388-1412 | A RAW record through the reader is drawn and joins the dictionary |
| BpvStrips.TakeSlot | codecs/bpv/src/bpv1_decode.c:1952-1974 | A handed-out buffer gets a slot if and only if its waiting strip is out of the radius and, when it does not wait, fewer than two others do; the strip it held is committed, which brings the reference to what it shows at this strip's turn |
| BpvStrips.CommitSlot | codecs/bpv/src/bpv1_decode.c:1961-1966 | Committing a waiting strip replaces its rows of the reference by its pixels and no others |
| BpvStrips.GrantedWaiting | codecs/bpv/src/bpv1_decode.c:1953-1967 | When the buffer waits, the guard lets it through exactly if every earlier strip with it ends at least the radius above the new strip |
| BpvStrips.GrantedFree | codecs/bpv/src/bpv1_decode.c:1967-1974 | When it does not wait, a slot is free exactly if at most one other buffer is out |
| BpvStrips.MixedShown | codecs/bpv/src/bpv1_decode.c:1961-1966 | With its slot taken, the reference is the previous frame with exactly those strips new whose buffers have been handed out again |
| BpvStrips.GrantedApart | codecs/bpv/src/bpv1_decode.c:1952-1960 | The guard keeps every buffer that comes back out of the header's radius |
| BpvStrips.TurnsGranted | codecs/bpv/src/bpv1_decode.c:1952-1974 | Two buffers in turn are served for every radius below the strip height |
| BpvStrips.OneStrip | codecs/bpv/src/bpv1_decode.c:1934-2006 | One strip: it fails only for a refused buffer or transfer, a failing block or a short input, and else leaves slots, reference and display as they are after one strip more |
| BpvStrips.DecodeStripRows | codecs/bpv/src/bpv1_decode.c:1975-1994 | The block loops of one strip fill it with the frame's pixels |
| BpvStrips.StripLoop | codecs/bpv/src/bpv1_decode.c:1933-2006 | Every strip of the frame; a failure means a strip that is not served, a failing frame, or a short input |
| BpvStrips.CloseFrame | codecs/bpv/src/bpv1_decode.c:2009-2110 | The waiting strips are committed, after which the reference shows the whole frame, and the frame is accepted exactly when its records end with the packet |
| BpvStrips.CopyStrip | codecs/bpv/src/bpv1_decode.c:1316-1330 | Committing a strip overwrites its rows and no others |
| BpvStrips.CommitAll | codecs/bpv/src/bpv1_decode.c:2009-2015 | Committing what still waits leaves every row of the reference new |
| BpvStrips.ShortFrame | codecs/bpv/src/bpv1_decode.c:1903-1922 | A frame too short for its mode map is never accepted |
| BpvPlayback.NextFrame | codecs/bpv/src/bpv1_decode.c:1879-2120 | The next frame of an input is accepted if and only if its header, records and audio are there and right against an untouched previous frame and every strip is served; it then leaves and shows the strips' picture, and stands behind the skipped audio |
| BpvPlayback.OpenNext | codecs/bpv/src/bpv1_decode.c:1884-1915 | Header checks, audio size included, and the start state of the next frame |
| BpvPlayback.StartKeyframe | codecs/bpv/src/bpv1_decode.c:1899-1915 | A keyframe drops previous frame and dictionary and brings its palette |
| BpvPlayback.PlayedAlike | codecs/bpv/src/bpv1_decode.c:1854-2120 | With buffers as far apart as the frame's vectors reach, that is the state and picture of an untouched previous frame |
| BpvPlayback.EncodedVectors | codecs/bpv/src/bpv1-codec.js:639-668 | The JavaScript encoder's vectors stay within the search radius in its header |
| BpvPlayback.LossyVectors | codecs/bpv/tools/bpv1enc.c:1545-1602 | So do the C encoder's, whatever it decides |
| BpvPlayback.EncodedHeader | codecs/bpv/src/bpv1_decode.c:792-824 | The header of an encoded frame passes frame_info_decode if and only if the file header passes header_layout |
| BpvHeader.EncodedAccepted | codecs/bpv/src/bpv1_decode.c:749-783 | encodeVideo's file header passes bpv1_header_read if and only if neither 16-bit frame-rate field comes out zero |
| BpvHeader.RateExample | codecs/bpv/src/bpv1-codec.js:65-66 | A video of 65536 frames a second: encodeVideo and decodeVideo accept it, the C decoder refuses its header |
| BpvHeader.HeadersAgree | codecs/bpv/src/bpv1_decode.c:166-200 | On any bytes the two header readers differ exactly in ADPCM, which decodeVideo refuses, and in zero dimensions, rates, frame counts and keyframe intervals, which the C decoder refuses |
| BpvHeader.FieldsBack | codecs/bpv/src/bpv1_decode.c:749-775 | Every field of a written header is read back |
| BpvPlayback.EncodedFrame | codecs/bpv/src/bpv1_decode.c:1854-2120 | An encoded frame is accepted by the strip decoder and leaves the encoder's state |
| BpvPlayback.EncodedPlays | codecs/bpv/src/bpv1-codec.js:78-204 | Frame n of an encoded video is playable from the state before it and leads to frame n + 1 |
| BpvPlayback.PlayNext | codecs/bpv/src/bpv1_decode.c:1854-2120 | One frame of an encoded video: accepted, and each display pixel shows its source colour, channel by channel |
| BpvScreen.FilePlays | codecs/bpv/src/bpv1_decode.c:1854-2120 | Frame n of a C encoder's file is playable from the encoder's state before it if and only if its audio is within the limit, and leads to its state and place after it |
| BpvScreen.PiecePlays | codecs/bpv/tools/bpv1enc.c:1976-1993 | A written frame is accepted if and only if its audio is within the limit; its vectors stay within the radius, and it leaves the encoder's state |
| BpvScreen.AudioFits | codecs/bpv/src/bpv1_decode.c:149-164 | The decoder allows the encoder's audio of a frame exactly unless it is ADPCM and the longest frames of the track do not fit in a block; then it refuses the shorter ones as well |
| BpvScreen.FirstRefused | codecs/bpv/src/bpv1_decode.c:149-164 | Such a track is refused at its first frame already |
| BpvScreen.RefusedAudioExample | codecs/bpv/src/bpv1_decode.c:149-164 | A one-frame track of 4096 samples that the encoder writes and the decoder refuses |
| BpvScreen.EncodedFileShown | codecs/bpv/tools/bpv1enc.c:2217-2328 | What the C encoder writes, header, groups and audio, for every plan, thread count and schedule, meets the conditions of PlayFile |
| BpvScreen.WrittenHeader | codecs/bpv/tools/bpv1enc.c:2074-2100 | The C encoder's header passes header_layout, and its audio limit is the track's |
| BpvLossy.LossyRoundTrip | codecs/bpv/tools/bpv1enc.c:1712-2005 | No drift: whatever the error measure decides, after every block the decoder holds the encoder's dictionary and the encoder's own reconstruction |
| BpvLossy.DecisionApplies | codecs/bpv/tools/bpv1enc.c:1871-1973 | A decision's record applies to the encoder's reconstruction, and its vector stays within the radius |
| BpvLossy.DecisionIs | codecs/bpv/tools/bpv1enc.c:1908-1950 | Each mode of the C encoder by its own condition: version 7 sends a coded block by the dictionary exactly if it is there; version 6 first keeps it or moves it |
| BpvLossy.DecideRecord | codecs/bpv/tools/bpv1enc.c:1908-1973 | The record chosen for a decision, the dictionary search included |
| BpvLossy.EncodeGopFrame | codecs/bpv/tools/bpv1enc.c:1712-1976 | The block loop's records, modes, dictionary and reconstruction |
| BpvLossy.AddToDictionary | codecs/bpv/tools/bpv1enc.c:1110-1121 | Adding after a failed search is the unique append |
| BpvGopPlan.Scan | codecs/bpv/tools/bpv1enc.c:955-975 | The first pass yields the plan the scores determine, and fails only for no frames |
| BpvGopPlan.GopPlan.Add | codecs/bpv/tools/bpv1enc.c:865-894 | Refuses exactly a start that is not after the last one |
| BpvGopPlan.PlanBounds | codecs/bpv/tools/bpv1enc.c:955-975 | The plan starts at frame 0, no group is longer than the maximum, no scene cut comes before the minimum, and a group not ended by a cut has the maximum length; an entry is marked as a cut exactly when a positive threshold is reached at the minimum length or later, and carries its score |
| BpvGopPlan.StartsRise | codecs/bpv/tools/bpv1enc.c:865-894 | Starts are strictly increasing |
| BpvGopPlan.NoMissedCut | codecs/bpv/tools/bpv1enc.c:955-975 | Every scene change far enough behind the last start begins a group |
| BpvGopPlan.PlanUnique | codecs/bpv/tools/bpv1enc.c:955-975 | The scores determine the plan |
| BpvGopPlan.FixedPlan | codecs/bpv/tools/bpv1enc.c:955-975 | Without scene cuts group i starts at i times the maximum length |
| BpvGops.PiecesDecode | codecs/bpv/tools/bpv1enc.c:2102-2200 | The joined frames decode one by one to the encoder's reconstruction and the track's samples |
| BpvGops.PieceDecodes | codecs/bpv/tools/bpv1enc.c:1976-1993 | A written frame decodes to the encoder's reconstruction with its audio |
| BpvGops.GroupPiecesOk | codecs/bpv/tools/bpv1enc.c:1712-2005 | The frames of a job are reachable from one another, the first a keyframe |
| BpvGops.PiecesJoin | codecs/bpv/tools/bpv1enc.c:2217-2328 | Groups encoded apart join into one consistent stream, because a keyframe starts from nothing |
| BpvGops.AudioWhole | codecs/bpv/tools/bpv1enc.c:2124-2146 | The frames' source samples, end to end, are the track and then silence: none lost, doubled or moved, for bytes and for 16-bit samples |
| BpvGops.SilenceBehind | codecs/bpv/tools/bpv1enc.c:2138-2178 | Behind the end of the track the bytes are 128 and the 16-bit samples 0 |
| BpvGops.AudioHeard | codecs/bpv/tools/bpv1enc.c:2138-2178 | A frame's audio plays back as its own samples, or as the predictors that the ADPCM encoder left |
| BpvGops.SamplesRise | codecs/bpv/tools/bpv1enc.c:2124-2133 | Per-frame sample counts are never negative and fit in 32 bits |
| BpvWorkers.EncodeAllGops | codecs/bpv/tools/bpv1enc.c:2217-2328 | Encoding fails if and only if a worker fails or some frame has more ADPCM samples than a block holds; otherwise the output is one function of the jobs and the track for every thread count from 1 to 16 and every interleaving of the workers |
| BpvWorkers.EncodedFileDecodes | codecs/bpv/tools/bpv1enc.c:2217-2328 | That output, behind any 29-byte header, decodes to each frame's reconstruction and audio and ends exactly behind the last frame |
| BpvWorkers.RunBatch | codecs/bpv/tools/bpv1enc.c:2273-2287 | Under any schedule every worker of a batch ends, with its own group's bytes or failed at its own fault |
| BpvWorkers.Worker.Step | codecs/bpv/tools/bpv1enc.c:1712-2005 | One frame of a job keeps the worker's output and state those of its group, or fails where its fault is |
| BpvWorkers.TakeJobs | codecs/bpv/tools/bpv1enc.c:2242-2272 | A batch takes the next jobs of the plan, as many as there are threads or are left, with exactly their frames |
| BpvWorkers.WriteBatch | codecs/bpv/tools/bpv1enc.c:2281-2314 | Finished jobs are written in plan order; the batch fails exactly with a failed worker or a frame whose samples do not fit |
| BpvWorkers.WriteJob | codecs/bpv/tools/bpv1enc.c:2288-2303 | A job's buffer is used up exactly, each frame with its audio, or the first frame whose samples do not fit fails it |
| BpvWorkers.WriteAudioFrame | codecs/bpv/tools/bpv1enc.c:2113-2199 | One frame copied with its audio length put in and its audio, bytes or an ADPCM block, behind it |
| BpvWorkers.AudioInput.Take | codecs/bpv/tools/bpv1enc.c:2120-2182 | The running phase takes exactly the samples of the closed form, with silence past the end of the file, and fails exactly when they do not fit in a block |
| BpvWorkers.EncodeSamples | codecs/bpv/tools/bpv1enc.c:2168-2178 | Little-endian samples become the ADPCM block of those samples |
| BpvWorkers.PlanCovers | codecs/bpv/tools/bpv1enc.c:955-975 | The plan of the first pass cuts the frames into non-empty groups |
| ImaAdpcm.LockStep | codecs/common/src/ima_adpcm.c:153-201 | Every block of 1 to 4096 samples decodes to as many samples, the first exactly and each later one equal to the encoder's predictor there |
| ImaAdpcm.DecodedNear | codecs/common/src/ima_adpcm.c:78-134 | In the decoded signal a sample within two steps of the last output is off by at most an eighth of the step and two |
| ImaAdpcm.StepError | codecs/common/src/ima_adpcm.c:78-116 | From every legal state, clamping included: within two steps the error is at most step/8 + 2; outside, the reconstruction moves towards the sample by the largest amount and not past it |
| ImaAdpcm.AmountNear | codecs/common/src/ima_adpcm.c:94-110 | The three comparisons approximate a difference below two steps to step/8 + 2 |
| ImaAdpcm.AmountFar | codecs/common/src/ima_adpcm.c:94-110 | A difference of two steps or more gives the largest code, whose amount is not larger than the difference |
| ImaAdpcm.AmountIs | codecs/common/src/ima_adpcm.c:118-127 | A magnitude of m stands for m and a half quarter steps, each part rounded down |
| ImaAdpcm.Coder.EncodeSample | codecs/common/src/ima_adpcm.c:78-116 | The encoder's code, and its new state: the decoder's after the same code |
| ImaAdpcm.Coder.DecodeNibble | codecs/common/src/ima_adpcm.c:118-134 | The decoder's new state and sample; high bits of the code are ignored |
| ImaAdpcm.IndexMoves | codecs/common/src/ima_adpcm.c:5-8 | The index falls by one for the four small magnitudes, rises by 2, 4, 6 or 8 for the others, and stays from 0 to 88 |
| ImaAdpcm.LargestDoubles | codecs/common/src/ima_adpcm.c:118-134 | After a largest code the step is more than twice as large, up to index 80 |
| ImaAdpcm.StepGrowth | codecs/common/src/ima_adpcm.c:10-20 | Every entry of the step table: 7 to 14, then the whole part of 16 times a power of 1.1, and 32767 at the end |
| ImaAdpcm.DecodeExample | codecs/common/src/ima_adpcm.c:179-201 | Two largest codes from zero decode to 0, 11 and 41 |
| ImaAdpcm.Successive | codecs/common/src/ima_adpcm.c:94-110 | Successive approximation computes the magnitude and the amount it stands for |
| ImaAdpcm.NearestStep | codecs/common/src/ima_adpcm.c:136-151 | The starting index is that of a nearest step if and only if the target is at most 32767; above it the unsigned subtraction wraps and the index is 87 |
| ImaAdpcm.TargetIs | codecs/common/src/ima_adpcm.c:144-147 | The target is the step of which seven quarters come nearest to the first difference |
| ImaAdpcm.WrapExample | codecs/common/src/ima_adpcm.c:145-149 | The samples -32768, 32767 are such a case |
| ImaAdpcm.InitialStepIndex | codecs/common/src/ima_adpcm.c:136-151 | The two loops compute that index |
| ImaAdpcm.EncodeBlock | codecs/common/src/ima_adpcm.c:153-177 | Accepts exactly 1 to 4096 samples with room for the block, writes the block's bytes and nothing behind them |
| ImaAdpcm.DecodeBlock | codecs/common/src/ima_adpcm.c:179-201 | Accepts exactly well-formed blocks of the stated size with room for the samples, and leaves the buffer alone otherwise |
| ImaAdpcm.HeaderRoundTrip | codecs/common/src/ima_adpcm.c:40-76 | A written block header is read back |
| ImaAdpcm.WriteHeader | codecs/common/src/ima_adpcm.c:58-76 | The six header bytes |
| ImaAdpcm.NibblesBack | codecs/common/src/ima_adpcm.c:169-174 | Two codes a byte, low nibble first, odd and even tails |
| ImaAdpcm.PlayCodes | codecs/common/src/ima_adpcm.c:192-198 | The sample loop plays the packed codes |
| ImaAdpcm.DecodeWavBlock | codecs/common/src/ima_adpcm.c:203-246 | The WAV block form: header checks, sample count and samples |
| ImaAdpcm.WavAgrees | codecs/common/src/ima_adpcm.c:225-246 | An odd-length block and the WAV block with the same codes sound the same |
| CompactYuv.UnpackPackedSamples | codecs/common/include/compact_yuv420.h:145-226 | Whichever path is taken, for every start, count and width, the values of the one-sample formula |
| CompactYuv.UnpackWindow | codecs/common/include/compact_yuv420.h:211-225 | The sliding bit window returns the one-sample values |
| CompactYuv.UnpackAligned | codecs/common/include/compact_yuv420.h:160-210 | The eight-sample paths return the one-sample values |
| CompactYuv.LumaSample | codecs/common/include/compact_yuv420.h:167-184 | Sample j of a six-byte group |
| CompactYuv.ChromaSample | codecs/common/include/compact_yuv420.h:185-205 | Sample j of a five-byte group |
| CompactYuv.CodeIsField | codecs/common/include/compact_yuv420.h:94-103 | The one- or two-byte formula reads the bit field of the whole row's number |
| CompactPack.PackUnpack | codecs/common/include/compact_yuv420.h:380-460 | Packing then unpacking returns each sample's quantized value |
| CompactPack.SpanCode | codecs/common/include/compact_yuv420.h:94-103 | Every code is read back from a packed span |
| CompactPack.PackAligned | codecs/common/include/compact_yuv420.h:380-460 | Whichever path is taken the bytes are the packed codes, the error sum grows by source minus quantized, and a reconstruction buffer, the source itself included, gets the quantized samples |
| CompactPack.QuantizeSpan | codecs/common/include/compact_yuv420.h:448-459 | Quantizing in order, source and reconstruction buffer possibly the same: codes, error sum and quantized samples |
| CompactPack.PackEight | codecs/common/include/compact_yuv420.h:291-378 | The luma and chroma fast paths pack eight samples |
| CompactPack.LumaIsSpan | codecs/common/include/compact_yuv420.h:291-333 | The six shifted bytes are the packed codes |
| CompactPack.ChromaIsSpan | codecs/common/include/compact_yuv420.h:335-378 | The five shifted bytes are the packed codes |
| CompactPack.PackCodes | codecs/common/include/compact_yuv420.h:445-460 | The generic OR loop over zeroed bytes packs the codes |
| CompactCorrection.BlockAverage | codecs/common/include/compact_yuv420.h:88-143 | With 5 to 7 bits the unpacked block's sum is never more than 2 below the source's, and within 2 of it when no sample underflows |
| CompactCorrection.CorrectionFits | codecs/common/include/compact_yuv420.h:88-92 | With 5 to 7 bits the correction fits in a signed byte and no corrected sample exceeds 255 |
| CompactCorrection.FitsFromFive | codecs/common/include/compact_yuv420.h:88-92 | The correction of every block fits in a signed byte if and only if the width is at least five bits |
| CompactCorrection.CorrectionRange | codecs/common/include/compact_yuv420.h:254-258 | Entries of full blocks lie from -32 to 48 for luma and from -64 to 112 for chroma |
| CompactCorrection.RangeReached | codecs/common/include/compact_yuv420.h:254-258 | Blocks of one value reach both ends, outside -8 to 14 on both sides |
| CompactCorrection.WhiteWraps | codecs/common/include/compact_yuv420.h:88-92 | With at most four bits a white block's correction wraps |
| CompactCorrection.CorrectionTotal | codecs/common/include/compact_yuv420.h:110-134 | The corrections of a full block add up to four times its Q4 entry |
| CompactCorrection.EachThresholdOnce | codecs/common/include/compact_yuv420.h:110-134 | Exactly `fraction` of the sixteen thresholds lie below it |
| CompactCorrection.ThresholdIsDither | codecs/common/include/compact_yuv420.h:110-134 | Every threshold's place: the map is the ordered-dither matrix of order four |
| CompactCorrection.SpanAgrees | codecs/common/include/compact_yuv420.h:254-281 | The span loop gives the one-sample value if and only if it does not raise a sample of 255 inside the narrow range, where the skipped clamp wraps |
| CompactCorrection.SpanIsCorrected | codecs/common/include/compact_yuv420.h:228-283 | So it always does with at most seven bits |
| CompactCorrection.EightBitExample | codecs/common/include/compact_yuv420.h:254-281 | With eight bits it may not |
| CompactCorrection.UnpackCorrected | codecs/common/include/compact_yuv420.h:228-283 | The block-by-block loop stores the span value of every sample |
| CompactCorrection.SpanValueIs | codecs/common/include/compact_yuv420.h:228-283 | With at most seven bits those values are the corrected samples |
| CompactCorrection.QuantizeError | codecs/common/include/compact_yuv420.h:80-86 | Quantizing errs by at most half a step down and a step less one up, the top code included |
| CompactPlane.PackPlaneRows | codecs/common/include/compact_yuv420.h:462-517 | Every byte of the packed rows and every correction entry of their blocks is as specified, nothing else of the plane changes, and a refused call changes nothing |
| CompactPlane.PackableIs | codecs/common/include/compact_yuv420.h:466-478 | Rows are accepted exactly from a block row on, up to another block row or to the bottom, for planes and strides that are not empty |
| CompactPlane.PlaneSample | codecs/common/include/compact_yuv420.h:462-517 | Every sample of a packed plane reads back as its source sample, quantized |
| CompactPlane.ErrorIsResidual | codecs/common/include/compact_yuv420.h:462-517 | The error sum of a full block is the block's residual |
| CompactPlane.PlaneBlock | codecs/common/include/compact_yuv420.h:136-143 | A full block read back with its correction is the corrected block whose average is kept |
| Amr3gp.Decoder.DecodeNext | codecs/amrnb/src/amrnb_3gp.c:530-586 | The packet of sample n is the bytes at the offset and size that stsc, stco, stsz give in closed form, its timestamp is 160 n, its duration is that of stts, and an error leaves the cursor in place |
| Amr3gp.PacketIsStored | codecs/amrnb/src/amrnb_3gp.c:548-555 | Accepted packets are exactly stored frames: header byte 8 t + 4 for a speech mode or no data, then the mode's speech bits in whole bytes |
| Amr3gp.DoneIs | codecs/amrnb/src/amrnb_3gp.c:530-586 | Sample n is decoded exactly when a stored frame lies at its place in the file and is no longer than the tables say |
| Amr3gp.Decoder.BeginChunk | codecs/amrnb/src/amrnb_3gp.c:464-488 | Finds the chunk's run and offset, or the error |
| Amr3gp.Decoder.FindRun | codecs/amrnb/src/amrnb_3gp.c:464-488 | The forward scan ends at the run that covers the chunk |
| Amr3gp.Decoder.Advance | codecs/amrnb/src/amrnb_3gp.c:562-584 | The cursor update keeps the closed forms for sample n + 1 |
| Amr3gp.UniformTime | codecs/amrnb/src/amrnb_3gp.c:335-376 | Every frame's decoding time is 160 n, for every accepted time table |
| Amr3gp.Durations | codecs/amrnb/src/amrnb_3gp.c:561-582 | A sample lasts 160 ticks, and the last one as long as the last time entry says |
| Amr3gp.RunUnique | codecs/amrnb/src/amrnb_3gp.c:300-333 | One run only covers a chunk |
| Amr3gp.ChunkUnique | codecs/amrnb/src/amrnb_3gp.c:300-333 | A sample lies in one chunk only |
| Amr3gp.Locate | codecs/amrnb/src/amrnb_3gp.c:464-488 | Every sample lies in a chunk |
| Amr3gp.ParseStsz | codecs/amrnb/src/amrnb_3gp.c:258-283 | Accepts exactly a table of some nonzero size that passes the room test and lies in the file, and finds the largest size |
| Amr3gp.WrittenSizes | codecs/amrnb/src/amrnb_3gp.c:258-283 | A written size table is accepted with its sizes and the largest of them |
| Amr3gp.SizeBack | codecs/amrnb/src/amrnb_3gp.c:450-462 | The size of sample k is number k of a written table, or the one size for all |
| Amr3gp.ChunkBack | codecs/amrnb/src/amrnb_3gp.c:474-487 | Chunk c starts at the c-th offset of a written stco or co64 table |
| Amr3gp.ParseChunks | codecs/amrnb/src/amrnb_3gp.c:285-298 | Accepts exactly a non-empty offset table that passes the room test |
| Amr3gp.ParseStsc | codecs/amrnb/src/amrnb_3gp.c:300-333 | Accepts exactly the run tables that pass the room test, start at chunk 1, rise, and have no empty chunk |
| Amr3gp.WrittenRuns | codecs/amrnb/src/amrnb_3gp.c:300-333 | A written run table is accepted as it was written, its description indices ignored |
| Amr3gp.ParseStts | codecs/amrnb/src/amrnb_3gp.c:335-376 | Accepts exactly the time tables that pass the room test, of 160-tick frames with one shorter frame at the very end at most, whose counts add up to the frame count |
| Amr3gp.WrittenTimes | codecs/amrnb/src/amrnb_3gp.c:335-376 | A written time table is accepted as it was written |
| Amr3gp.RunsInsideBox | codecs/amrnb/src/amrnb_3gp.c:313-316 | An accepted run table lies inside its box if and only if the box has room for the fields in front of it |
| Amr3gp.RoomTest | codecs/amrnb/src/amrnb_3gp.c:270-272 | The room test passes exactly when the table fits or its box ends before it starts, where the 64-bit subtraction wraps |
| Amr3gp.SizesInsideBox | codecs/amrnb/src/amrnb_3gp.c:270-273 | An accepted size table lies inside its box if and only if the box has room for the fields in front of it |
| Amr3gp.ChunksInsideBox | codecs/amrnb/src/amrnb_3gp.c:293-297 | The same for 32- and 64-bit chunk offsets |
| Amr3gp.TimesInsideBox | codecs/amrnb/src/amrnb_3gp.c:348-351 | The same for the time table |
| Amr3gp.ShortBoxExample | codecs/amrnb/src/amrnb_3gp.c:313-316 | Four-byte run and offset boxes whose tables are read from the bytes behind them |
| Amr3gp.ShortSizesExample | codecs/amrnb/src/amrnb_3gp.c:270-273 | An eight-byte stsz box whose sizes are read from the bytes behind it |
| Amr3gp.ShortTimesExample | codecs/amrnb/src/amrnb_3gp.c:348-351 | A four-byte time box whose table is read from the bytes behind it |
| Amr3gp.OpenTables | codecs/amrnb/src/amrnb_3gp.c:413-420 | Opening's tables are read if and only if all four parse, the times against the frame count of stsz, and no sample has more than 32 bytes |
| UartUpload.Uploader.Run | firmware/esp32_2432s028_hlv_player_idf_c/uart_upload.py:279-365 | For any events: the in-flight window stays within its size, and a normal exit means that every byte is acknowledged, nothing is in flight, and each block was written one to five times |
| UartUpload.Uploader.constructor | firmware/esp32_2432s028_hlv_player_idf_c/uart_upload.py:249-254 | An empty window at the start of the file |
| UartUpload.Uploader.Handle | firmware/esp32_2432s028_hlv_player_idf_c/uart_upload.py:296-365 | Exactly when each response or timeout raises, what it acknowledges, and which blocks it writes again; acknowledged bytes never decrease |
| UartUpload.Uploader.Acknowledge | firmware/esp32_2432s028_hlv_player_idf_c/uart_upload.py:351-360 | Accepts exactly the end offset of the named block, and then drops it and the ones before it |
| UartUpload.Uploader.RetransmitFrom | firmware/esp32_2432s028_hlv_player_idf_c/uart_upload.py:256-275 | Raises exactly when no block qualifies or one of them was written five times; writes the qualifying blocks up to there once more, in order |
| UartUpload.Uploader.Fill | firmware/esp32_2432s028_hlv_player_idf_c/uart_upload.py:280-291 | Writes new blocks of the file, in order and once each, until the window is full or the file ends |
| UartUpload.Uploader.WriteNext | firmware/esp32_2432s028_hlv_player_idf_c/uart_upload.py:285-291 | Numbers, stores and writes one block |
| UartUpload.Keyed | firmware/esp32_2432s028_hlv_player_idf_c/uart_upload.py:279-294 | The keys in flight are one contiguous range behind the last acknowledged block |
| UartUpload.Rewritten | firmware/esp32_2432s028_hlv_player_idf_c/uart_upload.py:261-271 | Another write of a block keeps the window, the log and the attempt counters in step |
| UartUpload.WindowShrinks | firmware/esp32_2432s028_hlv_player_idf_c/uart_upload.py:356-358 | Dropping the acknowledged blocks leaves a contiguous window |
| UartUpload.EndsLater | firmware/esp32_2432s028_hlv_player_idf_c/uart_upload.py:351-359 | Each acknowledgement of a block in flight increases the acknowledged bytes |
| UartUpload.BlocksJoin | firmware/esp32_2432s028_hlv_player_idf_c/uart_upload.py:281-286 | The blocks in front of an acknowledged position are exactly the file's bytes in front of it |
| AviDemux.Projection | codecs/common/src/avi_demux.c:302-369 | From any position the single-cursor walk filtered to a kind gives the packets of the walk for that kind, in order, for every stream the file has; their statuses differ if and only if the walk stops at a non-empty chunk of the other stream whose end file offsets cannot express, and then they are a range and a seek error |
| AviDemux.KindsProject | codecs/common/src/avi_demux.c:302-369 | The same for all three calls on any file that opening accepts, audio calls without an audio stream included |
| AviDemux.WideOffsets | codecs/common/src/avi_demux.c:65-77 | With file offsets wide enough for the longest chunk the statuses never differ |
| AviDemux.OverlongExample | codecs/common/src/avi_demux.c:346-355 | An overlong audio chunk: a range error for both streams and for audio, a seek error for video |
| AviDemux.StepProjects | codecs/common/src/avi_demux.c:302-357 | The same for one chunk header, through nested record lists, empty chunks and other streams |
| AviDemux.PacketsOrdered | codecs/common/src/avi_demux.c:302-357 | Packets come in file order and do not overlap |
| AviDemux.ListDelivered | codecs/common/src/avi_demux.c:302-357 | A written movi list is read as it was written: the walk delivers the non-empty chunks of the two streams in order, through records and past other chunks and lists, with their padding, and then reports the end |
| AviDemux.StepWritten | codecs/common/src/avi_demux.c:317-356 | What the walker does at each kind of written entry, and where the payload lies |
| AviDemux.Next | codecs/common/src/avi_demux.c:302-357 | Every walk ends, because each skipped chunk moves the cursor strictly forward |
| AviDemux.NoAudio | codecs/common/src/avi_demux.c:110-120 | Without an audio stream the common walk yields no audio packet and the audio walk ends at once |
| AviDemux.Demuxer.ReadPacket | codecs/common/src/avi_demux.c:302-357 | The loop returns the specified packet with the cursor at its payload, or the specified status |
| AviDemux.Demuxer.ReadChunk | codecs/common/src/avi_demux.c:317-356 | One chunk header and what it makes the walker do |
| AviDemux.Demuxer.FinishPacket | codecs/common/src/avi_demux.c:371-392 | Ends behind the packet, except when a lone padding byte is missing from the file: then it fails and stays |
| VlcTree.EmitTree | codecs/divx3/tools/gen_tables.py:52-86 | A table is written if and only if its non-empty codes are prefix-free and need at most 32767 nodes; then each code, followed by any bits, is found at its own entry after exactly its length; the two errors mean a clash and too many nodes; the 16-bit table is the same one if and only if no code behind entry 32767 has bits |
| VlcTree.WordValue | codecs/divx3/tools/gen_tables.py:60 | A code's word is its binary numeral, first bit most significant |
| VlcTree.WordUnique | codecs/divx3/tools/gen_tables.py:60 | Words of one length are told apart by those numbers |
| VlcTree.RowsStored | codecs/divx3/tools/gen_tables.py:77-86 | The emitted numbers keep their values as 16-bit children if and only if no code behind entry 32767 has bits |
| VlcTree.SentinelExample | codecs/divx3/src/divx3_decode.c:296-300 | The leaf of entry 32768 would be stored as the sentinel |
| VlcTree.InsertCode | codecs/divx3/tools/gen_tables.py:58-76 | One code's bits: a leaf at the end, or the right error |
| VlcTree.GrowPath | codecs/divx3/tools/gen_tables.py:69-76 | A new node keeps the labels distinct, closed under prefixes, and each on the way to some code |
| VlcTree.EndPath | codecs/divx3/tools/gen_tables.py:64-68 | A leaf on an empty place makes the code found, and no other code lost |
| VlcTree.Clash | codecs/divx3/tools/gen_tables.py:65-75 | An occupied end or a leaf on the way means that the codes are not prefix-free |
| VlcTree.HungFree | codecs/divx3/tools/gen_tables.py:56-76 | Codes that all hang from one tree are prefix-free |
| VlcTree.NodeCount | codecs/divx3/tools/gen_tables.py:56-76 | The tree has one node for each proper prefix of a code |
| VlcTree.CodeFound | codecs/divx3/tools/gen_tables.py:56-76 | Walking on a code stops after its length at its entry, whatever bits follow |
| VlcTree.WriteRows | codecs/divx3/tools/gen_tables.py:77-86 | The emitted numbers stand for the same tree: no node index meets the sentinel |
| VlcTree.DecodeIndex | codecs/divx3/src/divx3_decode.c:287-325 | The decoder's two loops return the entry and length of the walk over at most 30 bits, and fail in every other case |
| VlcTree.CodeDecoded | codecs/divx3/src/divx3_decode.c:309-325 | A code of an emitted table is decoded at its own entry if and only if it has at most 30 bits |

## Left out

- BpvPlayback.NextFrame: what the decoder holds after a refused frame is not stated; it speaks of a decoder that was created, so that header_layout's repeated check passes.
- BpvHeader.ReadFileHeader: refuses versions 1 to 5, and sizes are computed without overflow, as with a 64-bit `size_t`.
- BpvPlayback.PlayVideo: needs fewer than 2^32 frames, which is also the longest array of the encoder's language.
- BpvVideo.RoundTrip: needs fewer than 2^32 frames, the width of the header field.
- BpvWorkers.RunBatch: a worker's step is one whole frame, since workers share nothing that they write; a worker that fails does so at a given frame, and a group whose frames cannot be read or held counts as failing at its first.
- BpvDecoder.DecodeVideo: versions 1 to 5 (pattern dictionary, packed prefixes, direct mode 5) are refused; the source decodes them.
- BpvDecoder.DecodeV6Raw: colours are unpacked after all lengths are tested, and what a refused record leaves in the destination is not stated. Direct mode and other palette counts belong to older versions.
- BpvDecoder.PatternColors: the used mask is a set of selectors instead of a bit mask, and the population count its size; the same holds for `DirectColors`.
- BpvLossy.LossyRoundTrip: the error measure, palette training, candidate choice, PSNR and CUDA are an arbitrary decision per block.
- BpvGopPlan.Scan: the scene scores are given numbers; how they are computed is floating point and not part of this model.
- Amr3gp.OpenTables: the search for the boxes, the media header, the sample description and the speech decoder itself are not modelled; a table's place in the file is an input.
- UartUpload.Uploader.Run: CRC, session setup, completion and real time are left out; a run is any finite list of events, and lateness is part of an event. So safety and the write bound are proved, not delivery.
- AviDemux.Demuxer.ReadPacket: starts from parsed stream numbers and the end of the movi list; parsing the header lists is left out. Read errors other than the end of the file do not happen.
- CompactPlane.PackPlaneRows: the row loop of plane unpacking and pointer offsets into larger buffers are left out.
- The in-memory strip decoder and the ring fed by the refill reader: the same loops as the two that are modelled, with the block readers exchanged.
- JavaScript pixel planes: a frame is a list of blocks with sixteen pixels each, read as one plane where a vector crosses blocks; typed-array aliasing is not captured.
- The stand-alone stream inspector's messages and counters in `bpv1-file.js`.
- Allocation failure, paging of the reference, profiling counters, command lines, reports and progress text.
- RGB colour tables of the Y6/U5/V5 display path, the HLV, DivX 3, H.263 and MPEG decoders apart from the VLC walk, and the firmware side of the upload protocol.
