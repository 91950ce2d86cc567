# ServerShenanigans file transfer, modelled in Dafny

ServerShenanigans is a small peer-to-peer file sharing program in C++ for
Windows. A server keeps a catalog of shared files, keyed by file name.
It answers three text requests over TCP:

- `LIST` gets the catalog as `name:size:sha256` lines.
- `CHECKSUM name` gets the SHA-256 hex digest of one file.
- `GET name [OFFSET n] [COMPRESS]` streams the file from byte `n`. It streams either RAW, in 64 KiB blocks, or COMPRESSED, where each block is zlib-compressed and sent as a 4-byte length followed by the compressed bytes.

A client lists the catalog and downloads a file. It resumes a RAW download from the size of the partial file on disk. It checks the result against the listed digest. Its menu is a console list with an incremental, case-insensitive search filter.

This project models:

- the server's request handling, catalog, listing, `sendFile` streaming and admission check (`server.cpp`);
- the client's listing parser, request builder, resume decision, reply-header parser, both receive loops, completion and checksum gate, and `downloadByIndex` (`client.cpp`);
- both `key=value` configuration files (`client.cpp`, `server.cpp`);
- the `Menu` filter and selection state machine (`menu.h`).

The model proves:

- each side's operations against specification functions;
- that the two sides fit together: the request the client builds is parsed back by the server, the header the server writes is read back by the client, the listing the server sends is parsed back into its entries in key order, and a served RAW file arrives whole;
- that the COMPRESSED receive as written pads every block with zeros to 64 KiB, so a COMPRESSED download saves exactly the server's file only when its length is a multiple of 64 KiB, while the corrected receive of the findings below saves it whole.

How the outside world is represented:

- **Wire.** Each reply is a message: its header text plus the bytes that follow.
  - `Protocol.Deliver` turns a server `Reply` into the client's `Response`.
  - `segment(k)` bounds what the k-th payload `recv` returns; 0 is a closed connection.
  - `net(k)` is the result of the k-th RAW `send`.
- **Compression.** zlib's `compress2` and `uncompress` are the parameters `deflate` and `inflate`. They may fail. Wherever the two are assumed to be inverses, that assumption is stated (`Protocol.Inverts`).
- **Hashing.** OpenSSL's SHA-256 is a parameter `sha256` from bytes to a hex string.
- **Disks.** Each disk is a map from path to contents.
- **Files.** Files are `seq<byte>`; the catalog is a `map<string, FileInfo>`.
- **Integers.** C++ integer widths appear where they matter:
  - `std::stoull` and `istream >> size_t` are bounded by 2^64;
  - `std::stoi` by 32-bit `int`;
  - the frame length is a `uint32_t`.

Modules:

| file | module | models |
|---|---|---|
| wrappers.dfy | `Wrappers` | `Option`, `Min`, `Max` |
| text.dfy | `Text` | `find`, `find_last_not_of` trimming, `getline` splitting, C-string reads, `tolower`, decimal formatting, `stoull`/`stoi`/`istream >>`, `std::string` ordering and `std::map` key order |
| bytes.dfy | `Bytes` | 64 KiB blocks, zero fill, little-endian `uint32_t` |
| config_file.dfy | `ConfigFile` | the shared `key=value` line format |
| client_settings.dfy | `ClientSettings` | `ClientConfig` (client.cpp:37-72) |
| server_settings.dfy | `ServerSettings` | `ServerConfig` (server.cpp:42-77) |
| server.dfy | `Server` | `P2PFileServer` and `PathCompleter` |
| winpath.dfy | `WinPath` | the Windows `std::filesystem::path` rules for `filename()` and `operator/` |
| client.dfy | `Client` | `FileClient` |
| menu.dfy | `ConsoleMenu` | `Menu` (menu.h) |
| protocol.dfy | `Protocol` | properties that relate the client and the server |

Some behaviour of the code that a reader might not expect:

- The checksum comparison is exact string equality. It is not case-insensitive.
- The client keeps no resume record. The resume offset is the size of the file already at the save path, and a RAW resume appends the rest of the server's file to whatever that file holds. A stale partial file is extended blindly; only the checksum gate can notice.
- After `ERROR: Invalid offset` the client returns false and does not retry.
- The client drops every listing line that contains `Available files` anywhere, not only the title line.
- A request that matches none of `LIST`, `GET ` and `CHECKSUM ` gets no reply.
- The server reads the requested name with `iss >> filename`, i.e. one word. A name with white space (`my file.txt`) is asked for as its first word (`my`): the server answers `ERROR: File not found`, or serves another shared file of that name. The round-trip properties below are therefore stated for names without white space or NUL.
- `sendFile` refuses an offset with `offset >= filesize`, so an empty shared file is refused even at offset 0 (`ERROR: Invalid offset`) and can never be downloaded.

## Model

| member | source | states |
|---|---|---|
| Bytes.ChunksSpec | server.cpp:608-612 | the blocks `sendFile` reads, concatenated, are the data; each holds 1..CHUNK_SIZE bytes, all but the last exactly CHUNK_SIZE, and their count is the ceiling of the length over CHUNK_SIZE |
| Bytes.LE32RoundTrip | server.cpp:620-621 | the 4-byte length written as a little-endian `uint32_t` decodes to the length (client.cpp:494-495 reads it back) |
| Text.TrimRight | server.cpp:500 | `erase(find_last_not_of(" \n\r\t") + 1)`: the result is a prefix, does not end in one of the four blanks, and only blanks were removed |
| Text.FindChar | client.cpp:265-266 | `find(c, from)`: the first position at or after `from` holding `c`, or none when no such position exists |
| Text.Contains | client.cpp:260 | `find(p) != npos` holds exactly when `p` occurs at some position |
| Text.CString | client.cpp:420-421 | `std::string(buffer)` after the NUL store: a prefix without NUL, stopped only at a NUL |
| Text.LowerString | menu.h:88-92 | `::tolower` on every character: same length, only 'A'..'Z' change |
| Text.LinesOfJoin | client.cpp:259 | splitting with `getline` gives back the lines that were joined with "\n", when no line holds a line break |
| Text.StoULLOfString | client.cpp:274 | `std::stoull` of a decimal number below 2^64, followed by a non-digit or nothing, gives that number |
| Text.StoiOfString | client.cpp:57 | `std::stoi` of the text `<<` writes for an `int` gives the same `int` |
| Text.SizeDigits | server.cpp:599-602 | a `size_t` prints in at most 20 digits |
| Text.SortedKeysOrdered | server.cpp:539-543 | the order in which a `std::map<std::string, …>` iterates: every key once, in strictly ascending `std::string` order |
| Text.SortedKeysStep | server.cpp:539-543 | that order starts at the least key and then follows the order of the other keys |
| Text.BelowTotal | server.cpp:261 | `std::string`'s `<` is a strict total order: together with `Text.BelowIrreflexive` and `Text.BelowTransitive`, any two distinct strings compare one way |
| Text.BelowIrreflexive | server.cpp:261 | no string is below itself |
| Text.BelowTransitive | server.cpp:261 | `<` on strings is transitive |
| Text.LeastExists | server.cpp:539 | a non-empty key set has a least key, the one the map visits first |
| ConfigFile.SplitEntry | client.cpp:49-55 | a configuration line gives a key and a value exactly when it is not empty, does not start with '#' and holds '='; they are the text before and after the first '=' |
| ConfigFile.SplitEntryOf | client.cpp:51-54 | `key=value` with a key free of '=' splits back into that key and value |
| ConfigFile.FlagText | client.cpp:58 | the `true`/`false` that `save` writes reads back as the same flag (`value == "true"`) (also client.cpp:68) |
| ClientSettings.LoadOfSave | client.cpp:43-71 | `load` of what `save` wrote restores server, port, compression and download folder, from any prior settings, when no string holds a line break |
| ClientSettings.LoadSaved | client.cpp:48-60 | the five saved lines, read by `load`, give the saved settings without an exception |
| ClientSettings.ClientConfig.constructor | client.cpp:38-41 | the defaults: no server, port 8080, compression on, folder "." |
| ClientSettings.ClientConfig.Load | client.cpp:43-62 | no file changes nothing; otherwise the fields become what the lines give, line by line, and `ok` is false exactly when `std::stoi` throws |
| ClientSettings.ClientConfig.Save | client.cpp:64-71 | the text written is the serialised settings, the text `ClientSettings.LoadOfSave` reads back |
| ServerSettings.LoadOfSave | server.cpp:48-76 | `load` of what `save` wrote restores port, compression, connection limit and shared folder, when the folder holds no line break |
| ServerSettings.LoadSaved | server.cpp:53-65 | the five saved lines, read by `load`, give the saved settings without an exception |
| ServerSettings.ServerConfig.constructor | server.cpp:43-46 | the defaults: port 8080, compression on, 50 connections, no shared folder |
| ServerSettings.ServerConfig.Load | server.cpp:48-67 | as for the client, with the keys `port`, `compression`, `max_connections` and `shared_folder` |
| ServerSettings.ServerConfig.Save | server.cpp:69-76 | the text written is the serialised settings, the text `ServerSettings.LoadOfSave` reads back |
| WinPath.FileNameIsFinalComponent | server.cpp:433 | the catalog key `filename()` of a path is its final component under the Windows rules: a suffix without '/' or '\\' that starts after the root name (`C:`, `\\server`, `\\?\`), right after a separator or right after the root name |
| WinPath.RootNameExamples | server.cpp:433 | `filename()` of `C:x.txt` is `x.txt`, of `C:\share\x.txt` is `x.txt`, of `\\server\share` is `share`, and of `\\server` alone is empty |
| Server.Classify | server.cpp:495-525 | a request starting with `LIST` is a LIST; otherwise one starting with `GET ` is a GET of the trimmed rest; otherwise one starting with `CHECKSUM ` asks for the trimmed rest; anything else is unknown and gets no reply |
| Server.ReadTokenSpec | server.cpp:508-511 | `iss >> token` fails exactly when only white space is left, and otherwise reads a maximal run of non-space characters |
| Server.ExtractSize | server.cpp:513 | `iss >> offset` that succeeds reads at least one character and a value below 2^64 |
| Protocol.ParseGetTokens | server.cpp:505-517 | for a single-token name followed by options in any order, unknown tokens included: the name is the first token, COMPRESS is set exactly when a `COMPRESS` token occurs, and the offset is the number after the last `OFFSET`, or 0 when there is none |
| Server.ParseGetParams | server.cpp:505-517 | the loop over the tokens yields the file name, offset and COMPRESS flag of the specification `ParseGet`, whose round trip with the client's request is `Protocol.ParamsRoundTrip` |
| Server.EntryLinesAppend | server.cpp:539-543 | one more `+=` in the LIST loop appends exactly that entry's `name:size:sha256\n` line |
| Server.ListStep | server.cpp:539-543 | one loop step visits the least key not yet listed and extends the reply by its line |
| Server.RawDeliversRest | server.cpp:608-631 | RAW: when every `send` delivers its block whole, the payload is the file from the offset to its end; when no `send` is partial, the payload is a prefix of it |
| Server.RawPayloadAllSent | server.cpp:626-631 | the RAW payload from block k, every `send` whole, is the concatenation of blocks k.. |
| Server.RawPayloadPrefix | server.cpp:626-631 | with no partial `send`, whatever a SOCKET_ERROR cuts off, the payload is a prefix of the blocks |
| Server.FramedTotalAll | server.cpp:614-624 | COMPRESSED: when every block compresses, `totalSent` counts every byte of the blocks |
| Server.Frame | server.cpp:620-622 | a frame is 4 bytes longer than the compressed block it carries |
| Protocol.FrameAt | server.cpp:620-622 | the first 4 bytes of a frame decode to the compressed length, and the bytes after them are the compressed block (also client.cpp:494-513) |
| Server.SendBlock | server.cpp:614-631 | one block: COMPRESSED stops exactly when compression fails or is empty and otherwise sends the frame and counts the block; RAW stops exactly on SOCKET_ERROR and otherwise counts what `send` took |
| Server.StreamBlocks | server.cpp:608-632 | the loop of `sendFile` produces the framed payload (COMPRESSED) or the RAW payload, and `totalSent` as above |
| Server.FileServer.constructor | server.cpp:344-354 | an empty catalog, no active connection, the settings `load` gave |
| Server.FileServer.AddSharedFile | server.cpp:417-446 | a path that cannot be opened leaves the catalog alone; otherwise the entry keyed by the final component is inserted or overwritten with path, size and digest, and no other entry changes |
| Server.FileServer.RemoveFile | server.cpp:469-478 | exactly that key is erased, nothing else changes, and `found` tells whether it was there |
| Server.FileServer.HandleListRequest | server.cpp:531-547 | `No files available\n` for an empty catalog, else `Available files:\n` and one line per entry in key order (`ListResponse`; see `Protocol.ListingRoundTrip`) |
| Server.FileServer.HandleChecksumRequest | server.cpp:549-560 | `CHECKSUM:<sha256>\n` for a listed name, else `ERROR: File not found\n` |
| Server.FileServer.SendFile | server.cpp:576-636 | `ERROR: Cannot open file\n` or `ERROR: Invalid offset\n` with no payload; otherwise `OK:<size-offset>:COMPRESSED\n` exactly when compression was asked for and is enabled, else `:RAW\n`, then the payload of `Server.StreamBlocks` |
| Server.FileServer.HandleGetRequest | server.cpp:562-574 | an unlisted name gets `ERROR: File not found\n` and no payload; a listed one gets the reply of `SendFile` with compression only when both sides want it |
| Server.FileServer.HandleClient | server.cpp:480-529 | the connection count is raised on entry and lowered on both ways out, so it ends as it started; the reply is the dispatch of the request |
| Server.FileServer.Accept | server.cpp:652-666 | at or above the connection limit the reply is `ERROR: Server busy\n` and no handler runs; below it, the handler's reply |
| Server.PathCompleter.constructor | server.cpp:86 | no matches, cursor 0 |
| Server.PathCompleter.SetMatches | server.cpp:89-90 | `findMatches` replaces the matches with the sorted list found and restarts the cursor at 0 (also server.cpp:140) |
| Server.PathCompleter.GetNextMatch | server.cpp:149-155 | "" when there are no matches; otherwise the match at the cursor, with the cursor advanced cyclically |
| Client.ListFields | client.cpp:265-266 | the two `find` calls: the first ':' and the first ':' after it, exactly when the line has two colons |
| Client.ParseListLine | client.cpp:259-279 | a line gives an entry exactly when it is non-empty, holds no `Available files`, has two colons and `stoull` accepts the text between them; the name is the text before the first colon, the size the value `stoull` reads, and the digest the rest after the second colon with trailing blanks trimmed (`Protocol.ListLineRoundTrip` gives the converse) |
| Client.ListingStep | client.cpp:259-284 | each line of the listing adds its parsed entry, if any, to the end of the list |
| Client.ResumeOffset | client.cpp:347-366 | compression means offset 0; otherwise resuming an existing file starts at its size, and anything else at 0 |
| Client.ParseHeader | client.cpp:426-460 | a reply starting with `ERROR` is a server error, exactly; one starting with neither `ERROR` nor `OK:`, or with no ':' after `OK:`, is a format error, exactly; one whose size field `stoull` rejects is a size error, exactly; otherwise it is accepted with the size `stoull` reads, below 2^64, and is COMPRESSED exactly when the mode field reads `COMPRESSED` |
| Client.ModeFieldCompressed | client.cpp:459-460 | `substr(colon2 + 1, newline - colon2 - 1)` reads `COMPRESSED` exactly when that word ends the reply or is followed by its first newline |
| Client.HeaderText | client.cpp:411-422 | the header is at most 1023 bytes, a prefix of what arrived, read up to the first NUL |
| Client.RecvCount | client.cpp:541-542 | a `recv` returns no more than is left in the stream, was asked for, or the connection yields, and 0 only when one of them is 0 |
| Client.RawReceivePrefix | client.cpp:540-562 | what the RAW loop writes is exactly the next bytes of the stream, never more than was announced |
| Client.RawReceiveComplete | client.cpp:540-562 | with every `recv` delivering and the bytes present, the RAW loop writes exactly the announced bytes |
| Client.ReceiveRaw | client.cpp:483-486 | the RAW loop writes what `RawReceive` specifies and keeps `totalReceived + bytesToReceive == offset + remainingSize` (also client.cpp:540-562) |
| Client.FrameBody | client.cpp:502-513 | the inner frame loop receives up to the smaller of the frame size and the buffer capacity, never past the stream |
| Client.FrameBodyComplete | client.cpp:502-513 | with every `recv` delivering and the buffer large enough, the whole frame is received |
| Client.DecompressChunk | client.cpp:121-132 | `decompressData` succeeds exactly when `uncompress` does and fits 64 KiB, and returns its output padded with zeros to exactly CHUNK_SIZE bytes |
| Client.SatSub | client.cpp:529-535 | what is left to receive after a block never exceeds what was left and never undercounts it; it is 0 exactly when the block covers all that was left, and otherwise drops by the block's whole length |
| Client.NextFrame | client.cpp:494-520 | a frame that is read and decoded lies past its 4 length bytes, inside the stream; as written, its block is always CHUNK_SIZE bytes |
| Client.CompressedLoopWholeChunks | client.cpp:491-538 | as written, the COMPRESSED loop writes a whole number of 64 KiB chunks |
| Client.ReceiveFrame | client.cpp:502-513 | the inner `recv` loop ends where `FrameBody` says |
| Client.ReadFrame | client.cpp:494-520 | reading one frame gives what `NextFrame` specifies |
| Client.ReceiveCompressed | client.cpp:491-538 | the COMPRESSED loop writes and leaves what `CompressedLoop` specifies, with `totalReceived == offset + written`; as written, in whole chunks |
| Client.FramePadded | client.cpp:494-520 | as written, a frame of at most 64 KiB that arrives whole and inflates to a block is read as that block padded with zeros to 64 KiB |
| Client.Receive | client.cpp:490-563 | the receive loop of the announced mode, as written, writes and leaves what `Client.Received` gives with the receive as written |
| Client.ExpectedDigest | client.cpp:589-598 | the digest that decides is non-empty and belongs to an entry of that name with no earlier entry of that name holding a non-empty digest, i.e. the first; there is none exactly when every entry of that name has an empty digest |
| Client.FileClient.constructor | client.cpp:163-172 | no listed files, the settings `load` gave |
| Client.FileClient.ListFiles | client.cpp:250-287 | an empty `recv` fails and keeps the list; otherwise the list is rebuilt from the lines of the text before the first NUL of at most 8191 bytes |
| Client.FileClient.ChecksumGate | client.cpp:324-337 | the download passes exactly when no listed digest applies or the computed digest equals it exactly (also client.cpp:589-598) |
| Client.FileClient.DownloadFile | client.cpp:339-600 | the partial file is removed under compression, the request is built from the resume offset, and the outcome is the one `Client.Download` gives with the receive as written, which `Protocol.DownloadEndToEnd` and `Protocol.CompleteResumeFails` describe |
| Client.FileClient.Transfer | client.cpp:411-600 | no reply or an unaccepted header changes nothing and fails; otherwise the file at the save path is the resumed part plus what arrived, and the result is true exactly when nothing is left and the checksum gate passes |
| Client.FileClient.DownloadByIndex | client.cpp:603-613 | an index outside 1..size is refused with nothing sent and nothing written; otherwise the listed file downloads, with resume on, to `path(folder) / name` under the Windows rules |
| WinPath.AppendPlainName | client.cpp:611 | `path(folder) / name` for a plain name (no separator, no drive) is the folder, at most one '\\', then the name, and its `filename()` is that name |
| WinPath.AppendRooted | client.cpp:611 | a name that starts with a separator and has no root name keeps only the folder's root name: `path(folder) / name` is that root name followed by the name |
| WinPath.RootedExample | client.cpp:611 | `path("C:\\Downloads") / "\\evil"` is `C:\evil`, outside the folder |
| WinPath.PlainExample | client.cpp:611 | `path("C:\\Downloads") / "x.txt"` is `C:\Downloads\x.txt` |
| ConsoleMenu.FilteredExactly | menu.h:79-98 | the filtered indices are exactly the indices whose lower-cased item contains the lower-cased query, in ascending order |
| ConsoleMenu.FilteredAll | menu.h:84-86 | with an empty query every index is kept, in order |
| ConsoleMenu.FilterSpecExactly | menu.h:79-98 | every filtered index is a valid item index that passes the filter |
| ConsoleMenu.Padded | menu.h:201-211 | the descriptions are kept and padded with empty strings to the item count |
| ConsoleMenu.Menu.constructor | menu.h:189-193 | the title and window size given (15 lines when none is given), no items, no query, selection and scroll at 0 |
| ConsoleMenu.Menu.UpdateFilteredIndices | menu.h:79-104 | the filtered list is recomputed, and a selection past its end is clamped to `max(0, size - 1)` |
| ConsoleMenu.Menu.AddItem | menu.h:195-199 | the item and its description are appended in lockstep and the filter is refreshed |
| ConsoleMenu.Menu.SetItems | menu.h:201-211 | the items are replaced, descriptions padded to match, selection and scroll reset to 0 |
| ConsoleMenu.Menu.Clear | menu.h:287-294 | items, descriptions and query emptied, search mode off, selection and scroll at 0; the filtered list is left as it was |
| ConsoleMenu.Menu.AdjustScroll | menu.h:136-141 | for a window of at least one line, the selection ends up inside the window, moving the window only as far as needed |
| ConsoleMenu.Menu.MoveUp | menu.h:231-233 | the selection goes up by one only when it is above 0 |
| ConsoleMenu.Menu.MoveDown | menu.h:234-236 | the selection goes down by one only when it is below the last filtered item |
| ConsoleMenu.Menu.Choice | menu.h:242-248 | Enter gives -1 exactly when nothing matches, and otherwise the item index of the selected entry of the filtered list, a valid item that matches the query |
| ConsoleMenu.Menu.Escape | menu.h:250-261 | Esc exits exactly when not searching and the query is empty, changing nothing; otherwise it clears the query, leaves search mode and selects the first item |
| ConsoleMenu.Menu.Backspace | menu.h:267-272 | the last query character is removed only in search mode with a non-empty query; the list is refiltered and the selection kept, or clamped to the last entry when it fell off the end (also menu.h:100-103) |
| ConsoleMenu.Menu.TypeKey | menu.h:274-281 | in search mode a printable key is appended to the query, the filter refreshed and the first item selected; otherwise nothing changes |
| ConsoleMenu.Menu.Show | menu.h:213-285 | an empty menu gives -1; otherwise the value returned and the query, search mode, selection and scroll left are those of `ConsoleMenu.Run` over the keys, from the refiltered state; any index returned is a valid item that matches the query |
| ConsoleMenu.Menu.ShowStep | menu.h:222-284 | one pass of the loop (the scroll update of `render`, then one key, or 0 or 224 and an extended key) returns or leaves the state that `ConsoleMenu.Run` continues from |
| ConsoleMenu.Menu.HandleArrow | menu.h:227-238 | an extended key changes the state as `ConsoleMenu.Arrow` says |
| ConsoleMenu.Menu.HandleKey | menu.h:240-283 | a regular key returns, or changes the state, as `ConsoleMenu.Key` says |
| ConsoleMenu.Clamp | menu.h:100-103 | the selection after a refilter: kept when inside the list, else the last entry or 0 |
| ConsoleMenu.Arrow | menu.h:227-238 | up moves the selection up when above 0, down moves it down when below the last entry, and nothing else changes |
| ConsoleMenu.Key | menu.h:240-283 | Enter returns -1 exactly when nothing matches, else a matching item; Esc returns -1 exactly outside a search with an empty query; no other key returns; the selection stays inside the filtered list |
| ConsoleMenu.Start | menu.h:219 | the state `show` starts from after its first refilter, with the selection inside the list |
| ConsoleMenu.RunChoice | menu.h:221-284 | whatever the keys, the selection ends inside the filtered list and any index returned other than -1 is a valid item that matches the final query |
| ConsoleMenu.TypeText | menu.h:274-281 | printable text other than '/' typed in search mode is appended to the query and, once anything is typed, selects the first entry |
| ConsoleMenu.SearchThenEnter | menu.h:213-285 | `/`, a non-empty search text, then Enter returns the first item that contains the query, ignoring case, or -1 when none does |
| Protocol.ParamsRoundTrip | server.cpp:505-517 | the server's tokenizer reads back the file name, offset and COMPRESS flag of any `name [OFFSET n] [COMPRESS]` text with a single-token name (also client.cpp:392-399) |
| Protocol.RequestRoundTrip | client.cpp:392-399 | for a name without white space and an offset below 2^64, the request the client builds is a GET, and the server recovers its name, offset and compression flag (also server.cpp:495-517) |
| Protocol.SpacedNameCut | server.cpp:508 | a request for a name with white space parses as a request for its first word |
| Protocol.SpacedNameExample | server.cpp:508 | `my file.txt` is read as `my` |
| Protocol.RequestNoNul | client.cpp:392-399 | a request built from a NUL-free name holds no NUL, so the server's C-string read sees all of it |
| Protocol.GetServed | server.cpp:480-529 | for a name without white space or NUL, the server answers the client's request for a listed name with `sendFile`'s reply for that name, offset and combined compression flag, and an unlisted name with `ERROR: File not found\n`, when the request fits the server's 4095-byte buffer (also server.cpp:562-574) |
| Protocol.HeaderRoundTrip | server.cpp:595-602 | the client reads the `OK` header the server writes as accepted, with the same remaining size and mode (also client.cpp:426-460) |
| Protocol.ErrorHeaders | server.cpp:567-592 | every error reply of the server (not found, cannot open, invalid offset, busy) is read by the client as a server error (also server.cpp:654, client.cpp:426-430) |
| Protocol.ListLineRoundTrip | server.cpp:540-542 | a catalog entry's LIST line parses back into its name, size and digest, when the name has no ':', line break, NUL or `Available files` and the digest ends in a non-blank (also client.cpp:259-279) |
| Protocol.ListingRoundTrip | server.cpp:531-547 | the client's list, parsed from the server's whole LIST reply, is the catalog's entries in ascending key order, when the reply fits the client's 8191-byte buffer and every entry is listable: a name without ':', line break, NUL or `Available files`, a size below 2^64, and a digest without line break, NUL or 'A' that does not end in a blank (also client.cpp:250-284) |
| Protocol.NoticeListing | server.cpp:535-536 | `No files available\n` parses to an empty list (also client.cpp:259-279) |
| Protocol.TitleNotListed | client.cpp:260-262 | a line that holds `Available files` anywhere, not only the title, is never an entry |
| Protocol.NoColonNotListed | client.cpp:265-279 | a line without ':' is never an entry |
| Protocol.RawArrives | client.cpp:540-562 | RAW: with every `send` whole and every `recv` delivering, the client writes the file from the offset to its end and nothing is left to receive, with the receive as written or corrected (also server.cpp:608-631) |
| Protocol.FramesArrive | client.cpp:491-538 | COMPRESSED, corrected receive: when every frame's compressed block comes back from `inflate`, the loop writes exactly the concatenated blocks with nothing left (also server.cpp:614-624) |
| Protocol.CompressedArrives | client.cpp:491-538 | COMPRESSED, corrected receive: with `inflate` inverting `deflate` and every block compressing to a non-empty frame, the client writes the file from the offset to its end (also server.cpp:608-632) |
| Protocol.PaddedArrives | client.cpp:491-538 | COMPRESSED as written, every frame at most 64 KiB: the client writes the rest of the file followed by zeros up to the next multiple of 64 KiB, with nothing left to receive (also server.cpp:608-632) |
| Bytes.PaddedChunks | client.cpp:121-132 | the 64 KiB blocks of some data, each padded to 64 KiB, are the data followed by zeros up to the next multiple of 64 KiB |
| Bytes.Slack | client.cpp:121-132 | the zeros that padding adds: fewer than 64 KiB, bringing the length to a multiple of 64 KiB, and none exactly when it already is one |
| Protocol.SavedWhole | client.cpp:516-535 | the saved file is exactly the server's file when nothing is padded, or when the part sent is a multiple of 64 KiB, and only then; otherwise it is longer by the padding |
| Protocol.ServedArrives | server.cpp:576-636 | a `sendFile` reply for a valid offset carries the `OK` header for the rest of the file, and its payload arrives as exactly that rest, except that COMPRESSED as written pads it to a multiple of 64 KiB (also client.cpp:483-562) |
| Protocol.StaleResumeAppends | client.cpp:361-366 | a RAW resume appends the rest of the server's file to whatever the save path holds, its size being the offset, and the download succeeds exactly when the checksum gate passes on the result |
| Protocol.StaleDiffers | client.cpp:361-366 | when the partial file is not the file's first bytes, the partial file followed by the file's tail is not the file |
| Protocol.ServedFetch | client.cpp:411-600 | when the partial file at the save path is the file's first `offset` bytes (or `offset` is 0), receiving a served file writes, at the save path, the resumed part followed by the rest: the whole file for RAW and the corrected receive, the file padded to a multiple of 64 KiB for COMPRESSED as written; it succeeds exactly when the checksum gate passes on what was written (also server.cpp:576-636) |
| Protocol.DownloadServed | client.cpp:339-600 | a download answered by `sendFile`, from an offset below the file's length at which the save path holds the file's first `offset` bytes, ends with the file at the save path (padded as above for COMPRESSED as written) and the checksum gate's verdict on it |
| Protocol.DownloadEndToEnd | server.cpp:480-636 | for a listed name without white space or NUL, a non-empty remainder from the resume offset, a partial file at the save path that is the file's first bytes when resuming, a request within 4095 bytes, every `send` and `recv` delivering and, for COMPRESSED, blocks that compress and inflate back, a download of the file from the server ends with the server's file at the save path, whether it resumes a RAW transfer or restarts a COMPRESSED one, padded to a multiple of 64 KiB for COMPRESSED as written, and succeeds exactly when the checksum gate passes on what was saved (also client.cpp:339-600) |
| Protocol.DownloadSavesFile | client.cpp:339-600 | under the conditions of `Protocol.DownloadEndToEnd`, including a resumed partial file that is the file's first bytes, the save path holds exactly the server's file after a download if and only if the transfer is RAW, or uses the corrected receive, or the file's length is a multiple of 64 KiB (also server.cpp:480-636) |
| Protocol.SavedAt | client.cpp:516-535 | an outcome that saved the padded file holds the file itself exactly when `Protocol.SavedWhole` says so |
| Protocol.EmptyFileRefused | server.cpp:588 | an empty file is refused at every offset, 0 included, with `ERROR: Invalid offset` and no payload |
| Protocol.EmptyFileFails | server.cpp:584-592 | for a listed name without white space or NUL, a download of a file that is empty on the server fails, sending the request and changing nothing but the removal of the partial file under compression (also client.cpp:426-430) |
| Protocol.CompleteResumeFails | client.cpp:361-366 | for a listed name without white space or NUL, resuming a RAW download whose partial file is already complete is answered `ERROR: Invalid offset` and fails with the file untouched; there is no retry (also server.cpp:584-592, client.cpp:426-430) |
| Protocol.OverwriteRemoved | client.cpp:350-360 | removing the partial file before a truncating write leaves the same disk as the write alone (also client.cpp:464-470) |
| Protocol.CompressedPadsShortFile | client.cpp:121-132 | as written: a one-byte file sent COMPRESSED is written as that byte followed by 65535 zeros (also client.cpp:516-535) |
| Protocol.OversizeFrameAborts | client.cpp:502-513 | as written: a frame longer than CHUNK_SIZE ends the COMPRESSED loop with nothing written and everything left |

## Left out

- Sockets (Winsock setup, `connect`, `accept`, `send`, `recv`) are not modelled as calls. A reply is one message: its header and the bytes that follow. The single header `recv` at client.cpp:413 could also take payload bytes; the message-level model does not capture that.
- `Server.SendBlock`: the results of the two `send` calls that carry a COMPRESSED frame are ignored, as in the source. The model takes both as delivered.
- `Client.ReadFrame`: a 4-byte `recv` with `MSG_WAITALL` that returns fewer than 4 bytes is modelled as the end of the stream, which is how the loop treats it.
- Threads, `detach`, the catalog mutex and the atomic connection count are not modelled. The server is sequential, `Server.FileServer.HandleClient` counts one connection, and `Server.FileServer.Accept` checks the limit before it.
- zlib (`compress2`, `uncompress`) and OpenSSL SHA-256 are parameters (`deflate`, `inflate`, `sha256`), not implementations. That `inflate` inverts `deflate` is an assumption stated in the lemmas that need it.
- Filesystem walks are not modelled: `addFolder`, the directory iteration of `PathCompleter::findMatches`, `create_directories` and `getFileSize` beyond the length of the map entry.
- `Server.PathCompleter.SetMatches`: takes the sorted match list as given, because the directory walk that `findMatches` does to build it is not modelled.
- Write failures of `outFile` and read failures of the server's file are not modelled. A file that is on the disk map reads whole.
- `Client.Received`, `Client.Fetch` and `Client.Download` take a flag `corrected`. With `false` they are the code as written; `Client.Receive`, `Client.FileClient.Transfer`, `Client.FileClient.DownloadFile` and `Client.FileClient.DownloadByIndex` use only that. With `true` they are the corrected COMPRESSED receive of the findings below. `Protocol.ServedArrives`, `Protocol.ServedFetch`, `Protocol.DownloadServed`, `Protocol.DownloadEndToEnd`, `Protocol.DownloadSavesFile` and `Protocol.CompleteResumeFails` take the flag too and hold for both.
- `Protocol.PaddedArrives`, `Protocol.ServedFetch`, `Protocol.DownloadServed` and `Protocol.DownloadEndToEnd`: for COMPRESSED as written they cover only frames of at most 64 KiB. A larger frame ends the loop early (`Protocol.OversizeFrameAborts`), and what is then saved is not stated.
- `WinPath`: root names are compared character for character, so a drive letter in another case counts as another root name. The wide-to-narrow conversion of `path::string()` is the identity. `WinPath.AppendPlainName` excludes a folder of two separators alone, which a plain name would turn into a network root name.
- `Client.FileClient.ListFiles` models only the parsing half of `listFiles`: the request and the socket are not modelled, and the one `recv` is a parameter.
- `Client.FileClient.constructor` takes the settings as loaded: replacing an empty or "." download folder by the current directory and creating the folders are filesystem calls.
- `Client.FileClient.DownloadFile` ignores the winsock-initialised flag, socket creation and a bad IP address. Each of these returns false before anything is sent or written.
- Exceptions that `downloadFile` catches around the receive loop are not modelled. Only the receive loop can raise them, and in the model it cannot fail.
- `ClientSettings.ClientConfig.Load` and `ServerSettings.ServerConfig.Load`: a `std::stoi` exception leaves `load` uncaught in the source, which ends the program. The model returns `ok == false` and keeps the fields set so far.
- `ConsoleMenu.Menu.Show` returns `None` when the supplied keys run out. The source would wait for another key.
- The menu's `render` drawing, colours, `enableANSI`, `confirmDialog`, `readLineWithCompletion` and both `main` loops are console input and output.
- Floating-point progress and size display (`showProgress`, `displayFiles` and the server's `listFiles`) is output only.

## Findings

| source | as written | input that shows it | evidently intended | confidence | as-written member | corrected member |
|---|---|---|---|---|---|---|
| client.cpp:121-132, client.cpp:516-535 | `decompressData` returns the whole CHUNK_SIZE buffer, whatever length `uncompress` reports, and the loop writes all of it | a one-byte file downloaded COMPRESSED is saved as 65536 bytes, the byte then 65535 zeros; its checksum then fails | write only the `destLen` bytes that `uncompress` produced | high (not executed) | Protocol.PaddedArrives | Protocol.CompressedArrives |
| client.cpp:502-513 | the frame is received into a CHUNK_SIZE buffer, so at most CHUNK_SIZE bytes of a frame are read; a longer frame never completes and the loop stops | a 64 KiB block that deflate expands (incompressible data gives a frame over 65536 bytes) ends the download with nothing written for it | a receive buffer as large as the announced frame, as the server's `compressBound` allows | medium (not executed) | Protocol.OversizeFrameAborts | Protocol.FramesArrive |

