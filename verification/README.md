# LoRa image transfer: packet protocol and checksum manifest

This project models the core of a system that sends PNG images over a LoRa radio link and checks them on arrival.

- **Transmitter** (`transmit/lora_transmit.py`). It cuts each file into 240-byte chunks and sends them as numbered frames. Each frame carries a 10-byte header and a CRC-16 of its payload. The frames go out in a fixed order: START, DATA 0 .. total-1, END. The manifest follows as MANIFEST frames under file id 255.
- **Send loop.** Each frame send is retried up to three times. The first frame that cannot be sent stops the file.
- **Receiver** (`transmit/lora_receive.py`). It decodes each read, dispatches on the packet kind to its START, DATA, END and MANIFEST handlers, and reassembles each file from its payloads in sequence order. It keeps three counters.
- **Manifest tools** (`ChecksumBuilder/make_manifest.py` and `ChecksumChecker/verify_manifest.py`). The builder writes one `<md5>␠␠<name>` line per image, sorted by lower-cased name. The checker parses each line back and compares the named file's digest with the listed one.

## Modules

| module | file | what it is |
|---|---|---|
| `Wrappers` | wrappers.dfy | `Option`, `Result` |
| `Struct` | struct.dfy | Python `struct.pack` / `struct.unpack` for big-endian unsigned fields, with range errors |
| `Crc` | crc.dfy | `crc16` (CRC-16/MODBUS) as a bit-level function, the nested loop as a method, its check value, error detection |
| `Codec` | codec.dfy | `create_packet`, the decoder as written (`ParseLiteral`) and the decoder as the header layout documents it (`ParseIntended`) |
| `Text` | text.dfy | the `str` operations the tools use (`strip`, `lower`, `find`, `split(sep, 1)`, `splitlines`, `<`, `PurePath.suffix`), over ASCII |
| `Sorting` | sorting.dfy | `sorted` / `list.sort` with a key, as insertion sort |
| `Sender` | sender.dfy | chunking, frame order, `send_packet`, `send_file`, `send_manifest`, `transmit_images` |
| `Receiver` | receiver.dfy | the receiver state, the four handlers, `receive_packet`, the `listen` loop |
| `EndToEnd` | endtoend.dfy | the frames of `send_file` / `send_manifest` read back by the receiver |
| `Manifest` | manifest.dfy | `parse_manifest`, `verify_checksum`, `find_images`, `make_manifest` |

The outside world becomes parameters:
- **Radio.** The radio is a `Link` from attempt number to "got through" or "raised". A read on the receiving side is one frame.
- **Folder.** A folder is a `Folder` from a name to `Missing`, `Directory` or `Regular(bytes)`. For `transmit_images` and `find_images` it is a listing of `Entry(name, node)` values.
- **Oracles.** MD5 is an `Md5` function from bytes to a digest string. The UTF-8 encoding of a file name is an `encodeName` function. The answers to `input()` are `Answers`, indexed by prompt number.

Notes on what the code does, which the model follows:
- **CRC variant.** The CRC is CRC-16/MODBUS: initial value 0xFFFF, reflected polynomial 0xA001, no final XOR. This is the CRC of section 6.2.2 of the MODBUS over Serial Line Specification and Implementation Guide V1.02, not CRC-16/ARC.
- **No payload cap.** `create_packet` does not reject a payload over 240 bytes. It fails only when `struct.pack` does, that is when a field does not fit its width (byte fields 0..255, short fields 0..65535, the length included).
- **Short payloads.** A declared length longer than the bytes present is not an error. The payload slice is silently cut, and only the CRC decides.
- **Receive counter.** `packets_received` counts every non-empty read, before parsing, not only the reads that decode.

## Model

| member | source | states |
|---|---|---|
| Crc.Crc16 | transmit/lora_transmit.py:75-85 | the checksum always fits in 16 bits, and the checksum of no bytes is the initial value 0xFFFF (there is no final XOR) |
| Crc.ComputeCrc16 | transmit/lora_receive.py:88-98 | the receiver's nested loop (XOR the byte in, eight reflected shifts with 0xA001) computes exactly the same function as the transmitter's copy |
| Crc.ShiftEightTimes | transmit/lora_transmit.py:80-84 | the inner `for _ in range(8)` loop is eight single shifts of the register |
| Crc.CheckValue | transmit/lora_transmit.py:75-85 | the ASCII digits "123456789" give 0x4B37, the published check value of CRC-16/MODBUS, so this is MODBUS and not ARC |
| Crc.SingleByteChangeDetected | transmit/lora_receive.py:123-127 | changing any single byte of a payload changes its CRC, so the receiver's checksum test rejects every one-byte corruption |
| Crc.SameSuffixKeepsApart | transmit/lora_transmit.py:78-84 | two inputs whose registers differ keep different registers after any common continuation |
| Codec.FormatSizes | transmit/lora_receive.py:112 | the format `>BBHHHHH` is 12 bytes, while the documented header is 10 bytes and is that format without its last field |
| Codec.PackPacketFormat | transmit/lora_transmit.py:62-71 | `struct.pack('>BBHHHHH', ...)` succeeds exactly when the two byte fields are in 0..255 and the five short fields are in 0..65535, and then gives 12 bytes |
| Codec.CreatePacket | transmit/lora_transmit.py:59-73 | creating a frame fails exactly when kind or file id is outside 0..255, or seq, total or the payload length is outside 0..65535; otherwise the frame is the payload after a 10-byte header, with no 240-byte cap |
| Codec.CreatePacketLayout | transmit/lora_transmit.py:51-73 | bytes 0-9 of a created frame are kind, file id, big-endian seq, total, payload length and crc16 of the payload; the padding field is cut off |
| Codec.ParseIntended | transmit/lora_receive.py:107-129 | the documented decoder accepts a frame exactly when it has at least 10 bytes and the CRC of its payload (bytes 10 .. 10+len, cut to what is present) equals the header's checksum; then it returns the header fields and that payload |
| Codec.ParseCreateRoundTrip | transmit/lora_transmit.py:47-73 | decoding a created frame gives back the kind, file id, seq, total and payload it was created from, for every in-range field |
| Codec.ParseLiteralRejectsAll | transmit/lora_receive.py:107-133 | the decoder as written returns None for every input: short frames at the length test, all others through the caught `struct.error` |
| Codec.ParseLiteralDropsValidFrame | transmit/lora_receive.py:112 | a frame the transmitter creates and the documented decoder accepts is still rejected by the decoder as written |
| Codec.CorruptedPayloadRejected | transmit/lora_receive.py:121-127 | a created frame with any one payload byte changed is rejected |
| Codec.CorruptedFrameRejected | transmit/lora_receive.py:121-127 | any frame whose header matches its payload, with one payload byte changed, is rejected |
| Codec.TrailingBytesIgnored | transmit/lora_receive.py:121 | bytes after the declared payload do not change the result of decoding |
| Struct.UnpackPack | transmit/lora_transmit.py:62-71 | packing in-range values and unpacking the bytes with the same format gives the values back |
| Struct.ToBigEndian | transmit/lora_transmit.py:62-71 | a value below 256^width is written in exactly width bytes that read back as the value |
| Sender.TotalPackets | transmit/lora_transmit.py:125-126 | the frame count is the ceiling of size / 240: enough 240-byte chunks for the file and one fewer would not be, and 0 only for an empty file |
| Sender.Chunks | transmit/lora_transmit.py:149-152 | there are total chunks, each of 1 to 240 bytes, and all but the last exactly 240 |
| Sender.ConcatChunks | transmit/lora_transmit.py:149-152 | the chunks concatenated in order are the file's bytes |
| Sender.CutName | transmit/lora_transmit.py:132 | the START payload is the encoded name when it has at most 240 bytes, and exactly its first 240 bytes otherwise |
| Sender.FileFrameOrder | transmit/lora_transmit.py:132-180 | a file goes out as START, DATA 0 .. total-1 in ascending order and END; the DATA payloads concatenate to the file; an empty file gives only START and END with total 0 |
| Sender.ManifestFrameOrder | transmit/lora_transmit.py:205-219 | the manifest goes out as MANIFEST packets only, under file id 255, with seq 0 .. total-1 and the same chunking, with no START or END; empty content gives no packet |
| Sender.FilePacketsEncodable | transmit/lora_transmit.py:132-180 | every packet of a file can be created exactly when the file id fits a byte and the frame count fits a short, and the START packet can be created exactly then too |
| Sender.ManifestPacketsEncodable | transmit/lora_transmit.py:205-219 | every manifest packet can be created exactly when the frame count fits a short |
| Sender.Attempts | transmit/lora_transmit.py:87-97 | `send_packet` uses at most its three attempts, at least one when it succeeds, and all of them when it fails |
| Sender.AttemptsMeaning | transmit/lora_transmit.py:87-97 | `send_packet` returns True exactly when one of its attempts gets through, and then the attempts before that one all raised |
| Sender.AttemptsBreakRuns | transmit/lora_transmit.py:87-97 | when `send_packet` gets through, no run of three raising attempts starts among the attempts it made |
| Sender.SendAll | transmit/lora_transmit.py:142-185 | the frames on the air are, in order, the encodings of the first packets, and exactly as many attempts got through as frames went out; the loop returns True exactly when all went out; False means the next frame was encodable and the last three attempts all raised; conversely, any three raising attempts in a row stop the loop with False right after the third; an encoding error raises before its frame is sent |
| Sender.SendFileFailsFast | transmit/lora_transmit.py:142-185 | `send_file` of a regular file with in-range fields returns a value, True exactly when every frame went out; the frames sent are a prefix of the file's frames in order, one per attempt that got through; False comes after the last three attempts all raised, and any three raising attempts in a row end the file with False right after the third |
| Sender.SendFileClear | transmit/lora_transmit.py:99-188 | over a link on which every attempt gets through, `send_file` returns True having sent each of the file's frames once, in order |
| Sender.SendManifestClear | transmit/lora_transmit.py:190-226 | over such a link, `send_manifest` returns True having sent each MANIFEST frame once, in order |
| Sender.Images | transmit/lora_transmit.py:243 | the images are exactly the listing's entries with a `.png` suffix, in any case, sorted by name |
| Sender.PngEntries | transmit/lora_transmit.py:243 | the filter keeps exactly the entries whose suffix lower-cases to `.png` |
| Sender.SendImagesCount | transmit/lora_transmit.py:255-262 | each image is sent at most once, and one prompt is answered per failed file |
| Sender.SendImagesGoOn | transmit/lora_transmit.py:255-262 | the loop went past a failed file only after the answer "y" in any case |
| Sender.SendImagesStop | transmit/lora_transmit.py:255-262 | a loop that ends early without an exception ends on a failed file whose answer was not "y" |
| Sender.SendImagesClear | transmit/lora_transmit.py:255-256 | over a clear link the sorted images go out whole, one after the other, under file ids 0, 1, 2, ..., with no prompt; a 257th image raises `struct.error` before any of its frames is sent |
| Sender.SendImagesOverflow | transmit/lora_transmit.py:255-256 | the image given file id 256 raises `struct.error` before any of its frames is sent, and the loop ends there |
| Sender.SendRunClear | transmit/lora_transmit.py:255-271 | over a clear link, at most 256 sendable images and then the manifest all go out, in that order |
| Sender.TransmitImages | transmit/lora_transmit.py:236-247 | a missing directory, or one without a `.png` entry, sends nothing |
| Sender.Lookup | transmit/lora_transmit.py:270 | `manifest.md5` is found exactly when the listing has an entry of that name |
| Receiver.HandleStart | transmit/lora_receive.py:135-142 | START replaces the entry for its id outright with the name, the announced total, no payloads and a zero count; other ids, the manifest and the counters are untouched |
| Receiver.HandleData | transmit/lora_receive.py:150-158 | DATA for an unknown id changes nothing; otherwise it stores the payload at its seq (last write wins), raises the count by one even for a repeat, and ignores the packet's total |
| Receiver.HandleEnd | transmit/lora_receive.py:165-201 | END saves a file exactly when its id is known and the count equals the total; it then writes the payloads in ascending seq order under the received name, removes the entry and counts the file; otherwise nothing changes and the entry stays |
| Receiver.HandleManifest | transmit/lora_receive.py:203-234 | MANIFEST stores the payload at its seq and sets the total from the packet; it saves the manifest exactly when the buffer holds as many payloads as that total; the buffer is never cleared |
| Receiver.Least | transmit/lora_receive.py:182 | the least sequence number of a non-empty set, the one `sorted` puts first |
| Receiver.AssembleRange | transmit/lora_receive.py:181-183 | payloads stored under exactly seq lo .. hi-1 reassemble to those payloads concatenated in seq order |
| Receiver.Dispatch | transmit/lora_receive.py:266-281 | a kind outside 1-4 changes nothing; only END can write and count a file; only MANIFEST touches the manifest, and it leaves the files alone; no kind touches the read counters |
| Receiver.ReceivePacket | transmit/lora_receive.py:250-281 | an empty read changes nothing; every other read is counted as received; a read that does not parse is counted as failed and leaves the files, the manifest buffer and its total alone; a read that parses returns True whatever its kind |
| Receiver.RunStats | transmit/lora_receive.py:257-263 | over a run of reads, `packets_received` rises by the number of non-empty reads, `packets_failed` by the number rejected, and `files_completed` by the number of files saved |
| Receiver.RejectedOrSaved | transmit/lora_receive.py:257-276 | the rejected reads and the saved files together are no more than the non-empty reads |
| Receiver.StatsStayBounded | transmit/lora_receive.py:257-263 | `packets_failed + files_completed <= packets_received` holds after any run of reads if it held before |
| Receiver.Listen | transmit/lora_receive.py:306-325 | the listening loop over a sequence of reads computes the run of `receive_packet` over them, and keeps the counters bounded |
| Receiver.LiteralReceivesNothing | transmit/lora_receive.py:257-264 | with the decoder as written, every non-empty read only raises `packets_received` and `packets_failed` |
| Receiver.LiteralRunReceivesNothing | transmit/lora_receive.py:250-281 | with the decoder as written, a whole run saves nothing and changes no file or manifest state; both counters rise by the number of non-empty reads |
| Receiver.DataCommutes | transmit/lora_receive.py:157-158 | two DATA packets of one file with different seqs can arrive in either order |
| Receiver.AfterDataEntry | transmit/lora_receive.py:150-158 | after START and any DATA sequence, the count is the number of DATA packets and the stored seqs are exactly those sent, repeats included once |
| Receiver.RepeatBlocksCompletion | transmit/lora_receive.py:158-176 | DATA 0, DATA 0, DATA 1, DATA 2 of a 3-packet file gives count 4, so END saves nothing |
| Receiver.RepeatCompletesWithGap | transmit/lora_receive.py:158-183 | DATA 0, DATA 0, DATA 1 of a 3-packet file gives count 3, so END saves a file of only the two chunks, with the later seq-0 payload |
| Receiver.ManifestOnlyGrows | transmit/lora_receive.py:205 | no run of reads removes a seq from the manifest buffer |
| Receiver.StaleManifestBlocks | transmit/lora_receive.py:211 | once the buffer holds more payloads than a packet's total, that packet cannot save the manifest |
| EndToEnd.FrameReceived | transmit/lora_receive.py:257-281 | a frame created from a packet is counted as received and then handled as that packet |
| EndToEnd.StartHandled | transmit/lora_receive.py:135-142 | the START frame of a file opens its entry with the cut name and the file's total |
| EndToEnd.DataHandled | transmit/lora_receive.py:150-158 | DATA n, arriving after DATA 0 .. n-1, adds chunk n to the entry |
| EndToEnd.EndHandled | transmit/lora_receive.py:165-201 | after all DATA frames, END saves exactly the file's bytes under the cut name and removes the entry |
| EndToEnd.ReceiveFile | transmit/lora_receive.py:237-281 | the frames of a file, read in order by the documented decoder, save exactly that file; afterwards the id has no entry and the counters have risen by total + 2 received and 1 completed |
| EndToEnd.DeliverFile | transmit/lora_transmit.py:99-188 | over a clear link, `send_file` returns True, and the receiver reading what it put on the air saves exactly the file's bytes under its (cut) name |
| EndToEnd.ManifestCompletes | transmit/lora_receive.py:211-222 | the last MANIFEST frame, after the others, saves exactly the manifest content |
| EndToEnd.ReceiveManifest | transmit/lora_receive.py:203-234 | the MANIFEST frames of non-empty content, read in order by a receiver with an empty buffer, save exactly that content, once |
| EndToEnd.DeliverManifest | transmit/lora_transmit.py:190-226 | over a clear link, `send_manifest` returns True, and a receiver with an empty manifest buffer saves exactly the manifest that was sent |
| Text.StripPadded | ChecksumChecker/verify_manifest.py:23 | stripping a trimmed text padded with whitespace on both sides gives the text back |
| Text.StripOffset | ChecksumChecker/verify_manifest.py:23 | the stripped text sits inside the line with only whitespace before and after it |
| Text.StripIdempotent | ChecksumChecker/verify_manifest.py:35-36 | stripping twice is stripping once |
| Text.SplitOnce | ChecksumChecker/verify_manifest.py:29 | `split("  ", 1)` gives one part (the line) exactly when the separator does not occur, otherwise two parts joined by the separator, split at its first occurrence |
| Text.FindFirst | ChecksumChecker/verify_manifest.py:29 | find reports the first occurrence |
| Text.SplitLines | ChecksumChecker/verify_manifest.py:52 | `splitlines` gives lines without line breaks, and no line exactly for an empty text |
| Text.SplitJoinLines | ChecksumBuilder/make_manifest.py:45-46 | lines without line breaks, each ended by a line feed, split back into the same lines |
| Text.LowerFixes | ChecksumChecker/verify_manifest.py:42 | lower-casing leaves exactly the texts without capitals unchanged, and lower-casing twice is lower-casing once |
| Text.Suffix | ChecksumBuilder/make_manifest.py:27 | `PurePath.suffix` is the name from its last dot on when that dot is neither the first nor the last character, and empty otherwise |
| Text.PngSuffix | ChecksumBuilder/make_manifest.py:27 | a name has suffix `.png` in any case exactly when it is longer than four characters and ends in `.png` in any case |
| Text.LexLeTotal | ChecksumBuilder/make_manifest.py:31 | any two strings are ordered one way or the other by `<=` |
| Text.LexLeTransitive | ChecksumBuilder/make_manifest.py:31 | the string order is transitive |
| Sorting.SortBy | ChecksumBuilder/make_manifest.py:31 | sorting by a key gives a permutation of the input in ascending key order |
| Sorting.SortedUnique | ChecksumBuilder/make_manifest.py:31 | with distinct keys there is only one sorted permutation |
| Manifest.ParseManifest | ChecksumChecker/verify_manifest.py:22-42 | an accepted line gives a 32-character lower-case digest and a trimmed name; a blank or whitespace-only line is rejected |
| Manifest.ParseNeedsSeparator | ChecksumChecker/verify_manifest.py:29-33 | a line without two spaces in a row anywhere is rejected |
| Manifest.ParseFields | ChecksumChecker/verify_manifest.py:29-42 | a line whose stripped text is a whitespace-free field, two spaces and a non-empty trimmed rest is accepted exactly when the field has 32 characters, hexadecimal or not; the digest is the field lower-cased and the name is that rest, double spaces inside it included |
| Manifest.SplitAtSeparator | ChecksumChecker/verify_manifest.py:29 | the split happens at the first double space, after a field without whitespace |
| Manifest.ParseFormatLine | ChecksumBuilder/make_manifest.py:46 | a written line parses back to its digest and name, when the digest is 32 lower-case hex digits and the name is trimmed and non-empty |
| Manifest.PaddedNameStripped | ChecksumChecker/verify_manifest.py:36 | a name with trailing whitespace comes back without it, so the checker looks for another file |
| Manifest.FormatLineNoBreak | ChecksumBuilder/make_manifest.py:46 | a written line has no line break when the name has none |
| Manifest.FirstDirectory | ChecksumChecker/verify_manifest.py:58-73 | there is no directory to report exactly when no accepted entry names one; otherwise the name reported is that of the first accepted entry naming a directory, the one whose `compute_md5` raises |
| Manifest.FailuresBounded | ChecksumChecker/verify_manifest.py:65-80 | missing plus changed entries are no more than the entries |
| Manifest.TallyCounts | ChecksumChecker/verify_manifest.py:58-80 | the checking loop stops at the first accepted line naming a directory; otherwise checked is the number of accepted lines and failures is missing files plus changed digests |
| Manifest.VerifyChecksum | ChecksumChecker/verify_manifest.py:45-86 | a missing manifest is an error, and so is one with no accepted line; otherwise the result is the tally of the accepted lines, with 0 < checked and failures <= checked |
| Manifest.TallyAllPass | ChecksumChecker/verify_manifest.py:58-80 | lines that are all accepted, and name regular files with their listed digests, are all checked and none fails |
| Manifest.ImageEntries | ChecksumBuilder/make_manifest.py:26-28 | the images are exactly the regular files whose suffix lower-cases to `.png` |
| Manifest.FindImages | ChecksumBuilder/make_manifest.py:22-32 | `find_images` returns exactly the image entries, each as often as listed, in ascending order of lower-cased name |
| Manifest.Listed | ChecksumBuilder/make_manifest.py:45-46 | one line is written per image |
| Manifest.MakeManifest | ChecksumBuilder/make_manifest.py:35-48 | there is an error exactly when the folder has no image; otherwise the count returned is the number of images |
| Manifest.TallyListed | ChecksumBuilder/make_manifest.py:45-46 | the lines written for images still in the folder, unchanged, check without failure |
| Manifest.EntriesAllParse | ChecksumChecker/verify_manifest.py:52-59 | lines that each parse to a given entry read back as exactly those entries, in order |
| Manifest.MakeManifestLines | ChecksumBuilder/make_manifest.py:37-46 | the manifest text, split into lines and parsed, lists each image of `find_images` once, in that order, with its digest and its name, when names are trimmed, non-empty and on one line and MD5 gives 32 lower-case hex digits |
| Manifest.MakeThenVerify | ChecksumBuilder/make_manifest.py:35-48 | the manifest `make_manifest` writes for a folder, checked by `verify_checksum` against the same folder, checks every image and finds no failure, when names are trimmed and on one line and MD5 gives 32 lower-case hex digits |

## Findings

| source | as written | input that shows it | evidently intended | confidence | as-written member | corrected member |
|---|---|---|---|---|---|---|
| transmit/lora_receive.py:112 | `struct.unpack('>BBHHHHH', packet[:HEADER_SIZE])` unpacks a 12-byte format from a slice of at most 10 bytes, so it always raises `struct.error`, and the handler turns that into None | any frame `create_packet` produces, e.g. `create_packet(1, 0, 0, 0, b"")` | unpack the 10-byte header `>BBHHHH` the docstring and `HEADER_SIZE` describe | high, not executed | Codec.ParseLiteralDropsValidFrame | Codec.ParseIntended |

`Codec.ParseLiteral` is the decoder as written, and `Codec.ParseLiteralRejectsAll` proves it rejects everything; `Codec.ParseCreateRoundTrip` proves the corrected decoder inverts `create_packet`. Every frame a receiver with the decoder as written ever reads is counted as failed, and no file or manifest is ever saved: see `Receiver.LiteralRunReceivesNothing`. The end-to-end lemmas (`EndToEnd.DeliverFile`, `EndToEnd.DeliverManifest`) run the receiver with `ParseIntended`. The decoder is chosen by the `Decoder` parameter of `Receiver.ReceivePacket`: `AsWritten` or `AsDocumented`.

## Left out

- Serial and radio I/O: port detection, reading `in_waiting`, the radio set-up. One read is modelled as exactly one frame.
- Timing: every `time.sleep`, the `listen` timeout and idle message, `KeyboardInterrupt`. `Receiver.Listen` runs over a finite sequence of reads.
- Printing and `print_statistics`.
- Filesystem effects: `mkdir`, `open`, `write`, `exists`, `iterdir`. A write becomes a returned `Saved` record and a directory becomes a `Folder` or a listing. Errors from writing a received file are not modelled.
- MD5: an oracle. `compute_md5`'s 1 MB chunked reading is not modelled, since it gives the digest of the whole file.
- UTF-8: file names on the air are opaque bytes, and `encodeName` stands for `str.encode('utf-8')`. `decode('utf-8', errors='ignore')` in `handle_file_start` is left out; the receiver keeps the name bytes. `send_manifest`'s text read and re-encode is left out too; the manifest's bytes are taken as they are.
- Unicode text: `strip`, `lower`, `splitlines` and `<` are modelled over ASCII (whitespace 9-13 and 28-32; line breaks `\n`, `\r`, `\r\n`, 11, 12, 28, 29, 30). Non-ASCII characters are kept as they are and never count as whitespace, capitals or line breaks.
- `read_text()` decoding and `newline="\n"` translation: the manifest is a string as written.
- `make_manifest` writes `manifest.md5` to the working directory, not to the folder; the model returns the text and leaves where it goes to the caller.
- Crc: the receiver's `crc16` is the transmitter's function; `ComputeCrc16` models its loop once.
- `PKT_ACK_REQUEST` (kind 5) is never sent. Like any kind outside 1-4 it is received and otherwise ignored.
- Manifest.FindImages: the order among names with equal lower-cased forms (Python's sort keeps them in listing order) is not stated.
- Sender.Images: states membership and ascending name order, not how many times an entry appears. A directory listing has no repeated names.
- Sender.TransmitImages: its contract states only the cases that send nothing. What a run sends is stated by `Sender.SendRunClear` and the `Sender.SendImages*` lemmas about the loop it runs.
- Manifest.Listed: its contract states the number of lines. Their content is stated through `Manifest.MakeManifestLines`, which reads the written text back line by line, and `Manifest.TallyListed`.
- Not modelled at all, as they are outside this core: `ImageSorting/sort.py` (OpenCV geometry), `transmit/workflow.py` (subprocess glue), `transmit/test_dongle.py` (an interactive hardware probe) and `Encryption+Decryption/*.py` (wrappers around Fernet, a library that is not part of this model).
