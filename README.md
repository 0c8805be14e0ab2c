# slicecap in Dafny

slicecap cuts a libpcap capture file into N fragments of roughly equal size
and feeds each fragment, behind a copy of the file's global header, to a
subcommand's standard input. It cannot know where a record starts except by
reading the file sequentially, so for fragment `i` it reads a window at
`i * (size // nslice)` and slides over it one byte at a time. At each
position it takes the 16 bytes there as a record header. The first
position is accepted when the header's `tv_sec` is not older than a
running time anchor, is at most `maxgap` seconds newer, and its `caplen`
is at most the global header's snaplen. The anchor starts at the first
record's timestamp and moves to each accepted header. The fragment sizes
are then the differences between consecutive offsets, and the last size
runs to the end of the file.

The model covers the following, file by file:

- `Wrappers.dfy` holds `Option`, `Result`, `Min` and `Max`.
- `Bytes.dfy` holds big- and little-endian unsigned fields, the 32-bit
  two's-complement view of `thiszone`, and `ReadAt`. `ReadAt` is what
  `seek(pos); read(n)` returns from a file held as a byte sequence.
- `PcapHeaders.dfy` holds the global header codec (`PcapFileHeader.unpack_header`
  and `pack_header`) and the record header decoder
  (`PcapPkthdr.unpack_header`). Both are pure functions that return
  `Result` values, so that `ValueError` and `struct.error` appear as error
  values.
- `BoundaryLocator.dfy` holds the boundary search of
  `_guess_offset_of_frag_id` as a function (`Locate`), and its
  specification: `Locate` returns the first accepted position of the window,
  or no position at all.
- `FragmentPlanner.dfy` holds the sweep of `guess_frag_offsets_and_sizes`
  as a function (`SweepFrom`), together with the properties of the offsets,
  anchors and sizes it produces.
- `Dispatch.dfy` holds the command line of `_call_subcommand_for_frag_id`
  (the `{OFFSET}`, `{SIZE}` and `{FRAG_ID}` substitution, then `' '.join`)
  and the byte stream written to the subcommand: the packed header, then
  8192-byte reads of the fragment.
- `Slicecap.dfy` holds the `Slicecap` object, a class whose time anchor and
  offset and size lists its methods update:
  - `GuessOffsetOfFragId` is the byte-by-byte scan loop;
  - `GuessFragOffsetsAndSizes` is the per-fragment loop;
  - `CallSubcommandForFragId` builds the command and calls
    `WriteFragment`, which is the copy loop.

  Each method is proved against the functions above.

No process, file or pipe is modelled: the input file is a byte sequence.
The command is returned as a string, and what would be written to the pipe
is returned as the sequence of writes.

Where the tests and the code disagree, the code is followed. The tests
expect every offset to be at least 24. The code scans fragment 0 from byte
0 of the file, so a position inside the global header can be accepted.
`BoundaryLocator.FragmentZeroCanStartAtZero` gives conditions under
which the offset is 0. `FragmentPlanner.FirstFragmentAtMostFirstRecord`
gives the bound the code does keep under stated conditions. With at least
one fragment, maxgap at least 0, a file longer than 40 bytes, and a first
record whose caplen is at most snaplen, fragment 0 is found at an offset
of at most 24. Without these conditions the bound can fail. If the first
record's caplen exceeds snaplen, position 24 fails its check, and fragment
0 is found at another position that happens to pass, or not at all. If
maxgap is negative (the option parser accepts one), no position passes the
checks, so no fragment is found.

## Model

| member | source | states |
|---|---|---|
| Bytes.U16RoundTrip | slicecap.py:56-62 | Decoding an encoded 16-bit field gives the value back, and encoding a decoded 2-byte field gives the bytes back, in either byte order |
| Bytes.U32RoundTrip | slicecap.py:56-62 | The same two round trips for 32-bit fields |
| Bytes.I32RoundTrip | slicecap.py:56-62 | Reading a 32-bit field as a signed `l` and writing it back is the identity, both ways |
| Bytes.DecodeU16 | slicecap.py:56-62 | struct's `H` read of a 2-byte field in the header's byte order; see U16RoundTrip |
| Bytes.DecodeU32 | slicecap.py:56-62 | struct's `L` read of a 4-byte field in the header's byte order, as the `2Hl3L` and `4L` formats use it (slicecap.py:118-123); see U32RoundTrip |
| Bytes.EncodeU16 | slicecap.py:83-93 | struct's `H` write, giving 2 bytes; see U16RoundTrip |
| Bytes.EncodeU32 | slicecap.py:83-93 | struct's `L` write, giving 4 bytes; see U32RoundTrip |
| Bytes.FromI32 | slicecap.py:83-93 | struct's `l` write of thiszone as its 32-bit two's-complement pattern, agreeing with the value modulo 2^32; see I32RoundTrip |
| Bytes.FieldValues | slicecap.py:47-62 | Under `!` a 2- or 4-byte field is read most significant byte first, and under `<` least significant byte first |
| Bytes.ToI32 | slicecap.py:56-62 | The signed reading is negative exactly when the top bit is set, and agrees with the unsigned value modulo 2^32 |
| Bytes.ReadAt | slicecap.py:165-168 | A read at pos of n bytes returns min(n, bytes left) bytes, none past the end, each equal to the file's byte at that position |
| PcapHeaders.MagicByteOrder | slicecap.py:47-54 | The order is big-endian exactly for a1 b2 c3 d4, little-endian exactly for d4 c3 b2 a1, and nothing else is recognised |
| PcapHeaders.UnpackFileHeader | slicecap.py:40-77 | The decoder returns the unknown-magic ValueError exactly when 4 or more bytes start with an unknown magic. It returns struct.error exactly when there are fewer than 4 bytes, or a known magic but not exactly 24 bytes. On 24 bytes with a known magic it succeeds exactly when the version is 2.4; any other version gives the unsupported-version ValueError. It keeps the magic, and takes the snaplen from the field, with 0 replaced by 9000 |
| PcapHeaders.PackHeader | slicecap.py:79-93 | The packed header has 24 bytes and starts with the stored magic |
| PcapHeaders.PackHeaderFields | slicecap.py:83-93 | A layout helper for the round trips UnpackPackHeader and PackUnpackedHeader, spelling out PackHeader: each field of the packed header is its value encoded in the header's byte order, at its offset: major, minor, thiszone, sigfigs, snaplen, network |
| PcapHeaders.UnpackPackHeader | slicecap.py:40-93 | Packing any header that the decoder can produce, then unpacking it, gives the same header back |
| PcapHeaders.PackUnpackedHeader | slicecap.py:40-93 | Packing a decoded header gives back the input bytes, except that a snaplen field of 0 comes back as 9000; the packed bytes decode to the same header |
| PcapHeaders.UnpackedFields | slicecap.py:56-77 | A layout helper for PackUnpackedHeader, spelling out UnpackFileHeader: each field of a decoded header is read from its offset in the 24 bytes |
| PcapHeaders.UnpackPkthdr | slicecap.py:118-123 | A record header decodes exactly when there are 16 bytes; every failure is struct.error |
| PcapHeaders.UnpackPkthdrOfBytes | slicecap.py:118-123 | Decoding the 16 bytes of a record header gives that header back, in either order |
| PcapHeaders.PkthdrBytesOfUnpacked | slicecap.py:118-123 | Any 16 bytes are the encoding of their decoded record header, so the decoder loses nothing |
| BoundaryLocator.Candidate | slicecap.py:200 | The positions range(len(data) - 16) of the window, without the last position where a header would still fit; see ShortWindowFails, FirstAcceptedIsFirst |
| BoundaryLocator.Plausible | slicecap.py:206-215 | The three checks: tv_sec not below the anchor, at most maxgap above it, caplen at most snaplen; see LocateIsAcceptable |
| BoundaryLocator.FirstAccepted | slicecap.py:200-228 | The byte-by-byte scan of the window; see FirstAcceptedIsFirst, FirstAcceptedAt, FirstAcceptedNone |
| BoundaryLocator.Guess | slicecap.py:190 | The guessed position of a fragment; see GuessIsProduct |
| BoundaryLocator.Locate | slicecap.py:188-232 | The boundary search of one fragment, None being the ValueError; see LocateIsAcceptable, LocateIsFirstMatch, LocateAtFirst, LocateNone |
| BoundaryLocator.RecordAt | slicecap.py:201-203 | A helper: the 16 bytes at a candidate position always decode, and the header taken at a window position is what unpack_header gives for the 16 bytes there |
| BoundaryLocator.FirstAcceptedIsFirst | slicecap.py:200-215 | The scan's result, if any, is an accepted candidate at or after the start, and no earlier candidate is accepted; with no result, no candidate is accepted |
| BoundaryLocator.FirstAcceptedAt | slicecap.py:200-228 | If d is accepted and nothing between the start and d is, the scan returns d |
| BoundaryLocator.FirstAcceptedNone | slicecap.py:200-232 | If no candidate is accepted, the scan returns nothing |
| BoundaryLocator.GuessIsProduct | slicecap.py:190 | The guessed position of fragment i is i * frag_size |
| BoundaryLocator.Window | slicecap.py:191-196 | The window holds at most snaplen + 1000 bytes and lies inside the file |
| BoundaryLocator.WindowRecordIsFileRecord | slicecap.py:196-203 | The header read at window position d is the one at file position guess + d, and it lies inside the file |
| BoundaryLocator.LocateIsAcceptable | slicecap.py:188-232 | A located boundary lies in its window and in the file, passes the three checks, and carries the timestamp of the header at that file position. No boundary is located exactly when no position of the window passes the checks |
| BoundaryLocator.AcceptedIsAcceptable | slicecap.py:200-228 | An accepted window position, translated to a file offset, is an acceptable boundary carrying that header's timestamp |
| BoundaryLocator.LocateAtFirst | slicecap.py:200-228 | When d is the first accepted window position, the boundary is guess + d, with the timestamp read there |
| BoundaryLocator.LocateNone | slicecap.py:230-232 | When no window position is accepted, no boundary is found |
| BoundaryLocator.LocateIsFirstMatch | slicecap.py:200-228 | The located boundary's distance from the guess is accepted, and no smaller distance is |
| BoundaryLocator.ShortWindowFails | slicecap.py:200-232 | A window of 16 bytes or fewer never yields a boundary, because range(len(data) - 16) is then empty |
| BoundaryLocator.FragmentZeroCanStartAtZero | slicecap.py:188-215 | Fragment 0 is scanned from byte 0. For a little-endian file with thiszone 0, when the magic read as tv_sec lies within maxgap of the anchor, the boundary is placed at offset 0, inside the global header |
| FragmentPlanner.LocatorOfSound | slicecap.py:188-232 | Every boundary the search finds lies in its fragment's window and in the file, within maxgap seconds after the anchor it was searched with |
| FragmentPlanner.SweepFrom | slicecap.py:181-228 | The sweep finds one offset per fragment until the first fragment without a boundary. It stops there with the anchor unchanged. Otherwise the final anchor is the last boundary's tv_sec |
| FragmentPlanner.SweepInWindow | slicecap.py:188-200 | Each offset of the sweep lies in its own fragment's window, with a whole header in the file |
| FragmentPlanner.SweepSeconds | slicecap.py:204-225 | The anchor never decreases: the first boundary's second is within maxgap of the initial anchor, and each later one within maxgap of the previous one |
| FragmentPlanner.AnchorGrowth | slicecap.py:204-225 | The final anchor lies between the initial anchor and the initial anchor plus maxgap times the number of offsets found |
| FragmentPlanner.AppendedSizes | slicecap.py:184-185 | The size appended for the run's fragment j + 1 is its offset minus list entry j, as the absolute index `_frag_id - 1` gives it; these are the differences of consecutive offsets when the lists start empty |
| FragmentPlanner.AppendedSizesTelescope | slicecap.py:184-185 | The appended differences sum to the last offset minus the first |
| FragmentPlanner.PlanSizes | slicecap.py:184-186 | The sizes of a complete sweep from empty lists; see PlanShape, PlanSizesPositive |
| FragmentPlanner.PlanShape | slicecap.py:184-186 | There are as many sizes as offsets; each size but the last is the gap to the next offset; the last runs to the end of the file; the sizes sum to the file size minus the first offset |
| FragmentPlanner.PlannedOffsetBounds | slicecap.py:190-200 | Offset i lies in [i * frag_size, i * frag_size + len(window) - 17] |
| FragmentPlanner.SweepIncreasing | slicecap.py:190-200 | When frag_size is at least snaplen + 1000 - 16, the offsets strictly increase |
| FragmentPlanner.PlanWithinFile | slicecap.py:181-186 | After a complete sweep every fragment ends inside the file, and the last fragment holds more than a header |
| FragmentPlanner.PlanSizesPositive | slicecap.py:184-186 | Under the same frag_size condition, every fragment size is positive |
| FragmentPlanner.FirstFragmentAtMostFirstRecord | slicecap.py:164-215 | With the anchor taken from the first record, at least one fragment, maxgap at least 0, a file longer than 40 bytes and a first-record caplen of at most snaplen, the sweep finds fragment 0 at an offset of at most 24 |
| Dispatch.IntToDecimal | slicecap.py:244-246 | How the format call renders an int; see DecimalRoundTrip, DecimalIsPlain |
| Dispatch.Substitute | slicecap.py:244-246 | The format call on one argument token; see SubstituteFields, SubstituteLiteral, SubstituteKeepsNoSpace |
| Dispatch.Join | slicecap.py:244 | ' '.join; see SplitJoin |
| Dispatch.CommandLine | slicecap.py:244-247 | The subcommand string of a fragment; see CommandLineTokens |
| Dispatch.DecimalRoundTrip | slicecap.py:244-246 | The decimal text substituted for an integer reads back as that integer, negative values included |
| Dispatch.DecimalIsPlain | slicecap.py:244-246 | A substituted number holds no space, no `{` and no `}` |
| Dispatch.SubstituteFields | slicecap.py:244-246 | {OFFSET}, {SIZE} and {FRAG_ID} at the start of a token become the decimal offset, size and fragment id, and the rest is substituted after them |
| Dispatch.SubstituteLiteral | slicecap.py:244-246 | A token holding neither `{` nor `}` is passed through unchanged |
| Dispatch.SubstituteKeepsNoSpace | slicecap.py:244-246 | Substitution adds no space to a token |
| Dispatch.SubstitutedTokens | slicecap.py:244-247 | One substituted token per argument, in order |
| Dispatch.SplitJoin | slicecap.py:244 | Joining tokens that hold no space with single spaces can be split back into exactly those tokens |
| Dispatch.CommandLineTokens | slicecap.py:242-247 | When no argument holds a space, the command splits at its spaces into exactly the substituted arguments |
| Dispatch.FragmentData | slicecap.py:254-263 | The bytes the copy loop reads; see FragmentStreamParts, WriteFragment |
| Dispatch.FragmentStream | slicecap.py:253-263 | Everything written to the subcommand; see FragmentStreamParts, FragmentStreamHeader, WritesAreStream |
| Dispatch.Chunked | slicecap.py:257-263 | The reads of the copy loop; see ChunkedShape, WriteFragment |
| Dispatch.FragmentStreamParts | slicecap.py:253-263 | The stream has 24 + max(size, 0) bytes: the packed header, then exactly file[offset..offset + size] |
| Dispatch.FragmentStreamHeader | slicecap.py:253 | The first 24 bytes of the stream decode to the object's global header |
| Dispatch.ChunkedShape | slicecap.py:257-263 | The reads concatenate to the data; each is nonempty and at most 8192 bytes; all but the last are exactly 8192; there are ceil(size / 8192) of them |
| Dispatch.WritesAreStream | slicecap.py:253-263 | The header write followed by the chunked reads concatenates to the fragment stream |
| Slicecap.ReadStart | slicecap.py:164-171 | Building the object fails with the global header's own error when that fails. Otherwise it fails with struct.error when the first record header is short. It succeeds exactly when the file holds at least 40 bytes and its first 24 decode, giving that header and the record header at bytes 24..40 |
| Slicecap.FloorDiv | slicecap.py:136 | Python's // rounds towards minus infinity, for either sign of the divisor |
| Slicecap.Open | slicecap.py:132-142 | nslice 0 raises ZeroDivisionError. A header error is passed on. Otherwise the object holds the file, the options, the decoded header, empty lists, and the anchor at the first record's tv_sec and tv_usec |
| Slicecap.Slicecap.constructor | slicecap.py:132-142 | The object holds the decoded header, empty offset and size lists, and the first record's tv_sec and tv_usec as the anchor |
| Slicecap.Slicecap.LocatorSound | slicecap.py:188-232 | The object's boundary search only places boundaries inside the window, within maxgap of the anchor |
| Slicecap.Slicecap.GuessOffsetOfFragId | slicecap.py:188-232 | The scan loop returns the boundary Locate finds and moves the anchor to its timestamp. When none is found, it raises ValueError and leaves the anchor unchanged |
| Slicecap.Slicecap.FoundIsLocated | slicecap.py:223-228 | The first position the loop accepts is the boundary Locate gives, timestamp included |
| Slicecap.Slicecap.NothingLocated | slicecap.py:230-232 | A loop that accepts nothing agrees with Locate finding nothing |
| Slicecap.Slicecap.GuessFragOffsetsAndSizes | slicecap.py:173-186 | The per-fragment loop leaves offsets, sizes, anchor and error exactly as PlanFrom gives them from the old state. On a fresh object, a run without an error leaves nslice offsets and nslice sizes, every fragment ends inside the file, and the sizes sum to the file size minus the first offset |
| Slicecap.FreshPlanOutcome | slicecap.py:180-186 | A planner run on empty lists that ends without an error has at least one fragment, one offset and one size per fragment, every fragment inside the file, and sizes summing to the file size minus the first offset |
| Slicecap.PlanFrom | slicecap.py:181-186 | The planner loop, one fragment per step, from any lists and anchor; see PlanFromIsPlanned and the method above |
| Slicecap.Planned | slicecap.py:181-186 | The planner's result as the sweep's offsets, the sizes derived from them and the sweep's error; see PlanFromIsPlanned, FreshPlanned |
| Slicecap.PlanFromIsPlanned | slicecap.py:180-186 | The planner's result is the sweep's offsets and the sizes derived from them, appended to the existing lists, with the sweep's error |
| Slicecap.FreshPlanned | slicecap.py:180-186 | On empty lists, a complete sweep gives its offsets and PlanSizes of them |
| Slicecap.FreshPlanShape | slicecap.py:180-186 | On a fresh object, a complete sweep gives n offsets and n sizes. Every fragment ends inside the file, the last holds more than a header, and the sizes sum to the file size minus the first offset |
| Slicecap.Slicecap.CallSubcommandForFragId | slicecap.py:239-264 | The command is the joined, substituted arguments. The writes are the packed header, then the fragment in reads of at most 8192 bytes, and they concatenate to the fragment stream |
| Slicecap.WriteFragment | slicecap.py:253-263 | The copy loop writes the header, then exactly the chunked bytes file[offset..offset + size]. The returned data_left is 0 when size is positive, and is size otherwise (the loop does not run) |

## Left out

- `call_subcommands` and the multiprocessing pool: concurrency. Each fragment's dispatch is modelled on its own.
- `subprocess.Popen`, the pipe and `flush`: the command line is returned as a string and the pipe writes as a sequence of byte strings.
- File I/O and `os.stat`: the input file is a byte sequence, a seek and read is `ReadAt`, and the size is the sequence's length.
- `str.format` beyond the three named fields is not modelled. This covers the `{{` and `}}` escapes, which Python turns into one brace; a lone `}` and an unclosed `{`, which raise ValueError; format specs; and other or positional fields, which raise KeyError or IndexError. The model copies every character other than the start of the three fields unchanged, so it agrees with Python only on tokens whose braces all belong to the three fields.
- `main` and argparse: the parsed options are a datatype. The printed messages are not modelled.
- The property accessors of the header classes and the object are plain field reads, so they are not modelled. `PkthdrBytes` is the model's own encoder, used only to state that the record decoder loses nothing.
- Slicecap.Slicecap.CallSubcommandForFragId: requires the fragment to lie inside the file. On a short file the source's loop reads empty data forever without decreasing data_left. It also requires fragId to index both lists. The IndexError is not modelled.
- Slicecap.Slicecap.GuessOffsetOfFragId: the three `continue` tests are one combined condition. The source reads the window through a shared file object and the model reads it from the byte sequence.
- A negative frag_size, which comes from a negative nslice, is read as 0. No fragment is searched for then, since range of a negative number is empty.
- The commented-out check of `len` against the largest link frame is not part of the source's behaviour, so it is not modelled.
