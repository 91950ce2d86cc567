/**
 * The file server of server.cpp: the catalog of shared files, the request
 * parser of `handleClient`, the LIST / CHECKSUM / GET replies, the block
 * streaming of `sendFile`, the connection limit, and the Tab-completion
 * cycle of `PathCompleter`.
 *
 * Everything the server sends on one connection is one `Reply`: the text
 * header followed by the payload bytes. The disk is a map from path to
 * contents, each `send` of a RAW block is answered by `net`, zlib's
 * `compress2` is `deflate` and the SHA-256 hex digest is `sha256`.
 */
module Server {
  import opened Wrappers
  import opened Text
  import opened Bytes
  import ServerSettings
  import WinPath

  /** `FileInfo` (server.cpp:35-40). */
  datatype FileInfo = FileInfo(filename: string, filepath: string, filesize: nat, sha256: string)

  /** What `send` returned for one RAW block: `SOCKET_ERROR` or a byte count. */
  datatype SendResult = SocketError | Sent(count: nat)

  /** What the server writes on one connection; `Silent` when it writes nothing. */
  datatype Reply = Silent | Reply(header: string, payload: seq<byte>)

  /** The requests `handleClient` tells apart by prefix. */
  datatype Request = List | Get(params: string) | Checksum(name: string) | Unknown

  const NO_FILES := "No files available\n"
  const LIST_TITLE := "Available files:\n"
  const NOT_FOUND := "ERROR: File not found\n"
  const CANNOT_OPEN := "ERROR: Cannot open file\n"
  const INVALID_OFFSET := "ERROR: Invalid offset\n"
  const BUSY := "ERROR: Server busy\n"

  // ---------------------------------------------------------------------------
  // Requests
  // ---------------------------------------------------------------------------

  /** The dispatch of server.cpp:495-525 on the request's first bytes. */
  function Classify(request: string): (r: Request)
    ensures r == List <==> "LIST" <= request
    ensures r.Get? <==> !("LIST" <= request) && "GET " <= request
    ensures r.Get? ==> r.params == TrimRight(request[4..])
    ensures r.Checksum? ==> "CHECKSUM " <= request && r.name == TrimRight(request[9..])
    ensures r == Unknown <==> !("LIST" <= request) && !("GET " <= request) && !("CHECKSUM " <= request)
  {
    if "LIST" <= request then List
    else if "GET " <= request then Get(TrimRight(request[4..]))
    else if "CHECKSUM " <= request then Checksum(TrimRight(request[9..]))
    else Unknown
  }

  /** `iss >> token`: the next run of non-space characters and where it ends. */
  function ReadToken(s: string, i: nat): (r: Option<(string, nat)>)
    requires i <= |s|
    ensures r.Some? ==> i < r.value.1 <= |s| && r.value.0 != []
  {
    var j := SkipWhile(s, i, IsSpace);
    if j == |s| then None
    else
      var e := SkipWhile(s, j, NotSpace);
      Some((s[j..e], e))
  }

  /**
   * A token is read exactly when something other than white space is left;
   * it holds no white space and ends at white space or at the end.
   */
  lemma ReadTokenSpec(s: string, i: nat)
    requires i <= |s|
    ensures ReadToken(s, i).None? <==> forall k :: i <= k < |s| ==> IsSpace(s[k])
    ensures ReadToken(s, i).Some? ==>
      var (token, e) := ReadToken(s, i).value;
      (forall k :: 0 <= k < |token| ==> !IsSpace(token[k])) && (e == |s| || IsSpace(s[e]))
  {
    var j := SkipWhile(s, i, IsSpace);
    if j < |s| {
      var e := SkipWhile(s, j, NotSpace);
      assert forall k :: 0 <= k < e - j ==> s[j..e][k] == s[j + k];
    }
  }

  /** How `iss >> offset` (a `size_t`) ends. */
  datatype NumberRead =
    | AtEnd                          // only white space was left: the variable keeps its value
    | Failed(value: nat)             // no digits (0) or too large (2^64 - 1); the stream fails
    | Extracted(value: nat, end: nat)

  function ExtractSize(s: string, i: nat): (r: NumberRead)
    requires i <= |s|
    ensures r.Extracted? ==> i < r.end <= |s| && r.value < UINT64_LIMIT
  {
    var j := SkipWhile(s, i, IsSpace);
    if j == |s| then AtEnd
    else match ScanUnsigned(s, j)
      case NoDigits => Failed(0)
      case OutOfRange => Failed(UINT64_LIMIT - 1)
      case Scanned(v, e) => Extracted(v, e)
  }

  /**
   * The option loop of server.cpp:510-517 from position `i`, with the
   * values read so far; it stops at the end of the text or when reading
   * an OFFSET number fails the stream.
   */
  function ScanOptions(s: string, i: nat, offset: nat, compress: bool): (nat, bool)
    requires i <= |s|
    decreases |s| - i
  {
    match ReadToken(s, i)
    case None => (offset, compress)
    case Some((token, e)) =>
      if token == "OFFSET" then
        (match ExtractSize(s, e)
         case AtEnd => (offset, compress)
         case Failed(v) => (v, compress)
         case Extracted(v, e') => ScanOptions(s, e', v, compress))
      else if token == "COMPRESS" then ScanOptions(s, e, offset, true)
      else ScanOptions(s, e, offset, compress)
  }

  /** `GET name [OFFSET n] [COMPRESS]` after the trim: name, offset, compress. */
  function ParseGet(params: string): (string, nat, bool)
  {
    match ReadToken(params, 0)
    case None => ("", 0, false)
    case Some((name, e)) =>
      var (offset, compress) := ScanOptions(params, e, 0, false);
      (name, offset, compress)
  }

  /**
   * The tokenizer of server.cpp:505-517 run over the text after "GET "
   * with its trailing white space removed.
   */
  method ParseGetParams(params: string) returns (filename: string, offset: nat, compress: bool)
    ensures (filename, offset, compress) == ParseGet(params)
  {
    filename, offset, compress := "", 0, false;
    var i: nat := |params|;
    var first := ReadToken(params, 0);
    if first.Some? {
      filename, i := first.value.0, first.value.1;
    }
    ghost var start := i;
    var going := first.Some?;
    while going
      invariant i <= |params|
      invariant first.None? ==> !going && (filename, offset, compress) == ("", 0, false)
      invariant first.Some? ==> ParseGet(params) == (filename, ScanOptions(params, start, 0, false).0, ScanOptions(params, start, 0, false).1)
      invariant going ==> ScanOptions(params, i, offset, compress) == ScanOptions(params, start, 0, false)
      invariant !going && first.Some? ==> (offset, compress) == ScanOptions(params, start, 0, false)
      decreases |params| - i, going
    {
      var token := ReadToken(params, i);
      if token.None? {
        going := false;
      } else {
        var (t, e) := token.value;
        if t == "OFFSET" {
          var n := ExtractSize(params, e);
          match n {
            case AtEnd =>
              going := false;
            case Failed(v) =>
              offset := v;
              going := false;
            case Extracted(v, e') =>
              offset := v;
              i := e';
          }
        } else if t == "COMPRESS" {
          compress := true;
          i := e;
        } else {
          i := e;
        }
      }
    }
  }

  // ---------------------------------------------------------------------------
  // Replies
  // ---------------------------------------------------------------------------

  /** One LIST line: `name:size:sha256`. */
  function EntryLine(info: FileInfo): string
  {
    info.filename + ":" + NatToString(info.filesize) + ":" + info.sha256 + "\n"
  }

  function EntryLines(catalog: map<string, FileInfo>, keys: seq<string>): string
    requires forall i :: 0 <= i < |keys| ==> keys[i] in catalog
  {
    if keys == [] then [] else EntryLine(catalog[keys[0]]) + EntryLines(catalog, keys[1..])
  }

  lemma {:induction false} EntryLinesAppend(catalog: map<string, FileInfo>, keys: seq<string>, k: string)
    requires forall i :: 0 <= i < |keys| ==> keys[i] in catalog
    requires k in catalog
    ensures EntryLines(catalog, keys + [k]) == EntryLines(catalog, keys) + EntryLine(catalog[k])
  {
    if keys != [] {
      assert (keys + [k])[1..] == keys[1..] + [k];
      EntryLinesAppend(catalog, keys[1..], k);
    }
  }

  /** One turn of the LIST loop: the least remaining key is the next one in order. */
  lemma ListStep(catalog: map<string, FileInfo>, done: seq<string>, remaining: set<string>, k: string)
    requires remaining <= catalog.Keys && IsLeast(k, remaining)
    requires forall i :: 0 <= i < |done| ==> done[i] in catalog
    requires SortedKeys(catalog.Keys) == done + SortedKeys(remaining)
    ensures SortedKeys(catalog.Keys) == (done + [k]) + SortedKeys(remaining - {k})
    ensures LIST_TITLE + EntryLines(catalog, done + [k])
         == (LIST_TITLE + EntryLines(catalog, done)) + EntryLine(catalog[k])
  {
    SortedKeysStep(remaining, k);
    assert [k] + SortedKeys(remaining - {k}) == SortedKeys(remaining);
    assert done + ([k] + SortedKeys(remaining - {k})) == (done + [k]) + SortedKeys(remaining - {k});
    EntryLinesAppend(catalog, done, k);
  }

  /** The LIST reply: entries in ascending key order, as a `std::map` iterates. */
  ghost function ListResponse(catalog: map<string, FileInfo>): string
  {
    if catalog == map[] then NO_FILES
    else
      SortedKeysOrdered(catalog.Keys);
      LIST_TITLE + EntryLines(catalog, SortedKeys(catalog.Keys))
  }

  function ChecksumResponse(catalog: map<string, FileInfo>, name: string): string
  {
    if name in catalog then "CHECKSUM:" + catalog[name].sha256 + "\n" else NOT_FOUND
  }

  /** `OK:<remaining>:<COMPRESSED|RAW>\n` */
  function OkHeader(remaining: nat, compressed: bool): string
  {
    "OK:" + NatToString(remaining) + ":" + (if compressed then "COMPRESSED" else "RAW") + "\n"
  }

  /**
   * The RAW payload from block `k` on: each `send` delivers the first
   * `count` bytes of its block (at most the block), `SOCKET_ERROR` ends it.
   */
  function RawPayload(blocks: seq<seq<byte>>, net: nat -> SendResult, k: nat): seq<byte>
    requires k <= |blocks|
    decreases |blocks| - k
  {
    if k == |blocks| then []
    else match net(k)
      case SocketError => []
      case Sent(n) => blocks[k][..Min(n, |blocks[k]|)] + RawPayload(blocks, net, k + 1)
  }

  /** A compressed block on the wire: its length as a `uint32_t`, then the bytes. */
  function Frame(c: seq<byte>): (r: seq<byte>)
    ensures |r| == 4 + |c|
  {
    EncodeLE32(|c| % UINT32_LIMIT) + c
  }

  /** `compressData` gave no bytes: `compress2` failed (or produced nothing). */
  predicate CompressFails(deflate: seq<byte> -> Option<seq<byte>>, block: seq<byte>) {
    deflate(block).None? || deflate(block).value == []
  }

  /** The COMPRESSED payload from block `k` on, up to the first block that does not compress. */
  function FramedPayload(blocks: seq<seq<byte>>, deflate: seq<byte> -> Option<seq<byte>>, k: nat): seq<byte>
    requires k <= |blocks|
    decreases |blocks| - k
  {
    if k == |blocks| || CompressFails(deflate, blocks[k]) then []
    else Frame(deflate(blocks[k]).value) + FramedPayload(blocks, deflate, k + 1)
  }

  /** `totalSent` in COMPRESSED mode: the uncompressed size of the framed blocks. */
  function FramedTotal(blocks: seq<seq<byte>>, deflate: seq<byte> -> Option<seq<byte>>, k: nat): nat
    requires k <= |blocks|
    decreases |blocks| - k
  {
    if k == |blocks| || CompressFails(deflate, blocks[k]) then 0
    else |blocks[k]| + FramedTotal(blocks, deflate, k + 1)
  }

  lemma FramedStep(blocks: seq<seq<byte>>, deflate: seq<byte> -> Option<seq<byte>>, k: nat,
                   payload: seq<byte>, total: nat, whole: seq<byte>, wholeTotal: nat)
    requires k < |blocks|
    requires payload + FramedPayload(blocks, deflate, k) == whole
    requires total + FramedTotal(blocks, deflate, k) == wholeTotal
    ensures CompressFails(deflate, blocks[k]) ==> payload == whole && total == wholeTotal
    ensures !CompressFails(deflate, blocks[k]) ==>
      (payload + Frame(deflate(blocks[k]).value)) + FramedPayload(blocks, deflate, k + 1) == whole
    ensures !CompressFails(deflate, blocks[k]) ==>
      (total + |blocks[k]|) + FramedTotal(blocks, deflate, k + 1) == wholeTotal
  {
    if CompressFails(deflate, blocks[k]) {
      assert payload + [] == payload;
    } else {
      var f := Frame(deflate(blocks[k]).value);
      var rest := FramedPayload(blocks, deflate, k + 1);
      assert FramedPayload(blocks, deflate, k) == f + rest;
      assert payload + (f + rest) == (payload + f) + rest;
    }
  }

  lemma RawStep(blocks: seq<seq<byte>>, net: nat -> SendResult, k: nat, payload: seq<byte>, whole: seq<byte>)
    requires k < |blocks| && payload + RawPayload(blocks, net, k) == whole
    ensures net(k).SocketError? ==> payload == whole
    ensures net(k).Sent? ==>
      (payload + blocks[k][..Min(net(k).count, |blocks[k]|)]) + RawPayload(blocks, net, k + 1) == whole
  {
    if net(k).SocketError? {
      assert payload + [] == payload;
    } else {
      var part := blocks[k][..Min(net(k).count, |blocks[k]|)];
      var rest := RawPayload(blocks, net, k + 1);
      assert RawPayload(blocks, net, k) == part + rest;
      assert payload + (part + rest) == (payload + part) + rest;
    }
  }

  /** Every `send` of a RAW block reports the whole block sent. */
  predicate AllSent(blocks: seq<seq<byte>>, net: nat -> SendResult) {
    forall k :: 0 <= k < |blocks| ==> net(k).Sent? && net(k).count >= |blocks[k]|
  }

  /** No `send` of a RAW block reports a partial block. */
  predicate NeverPartial(blocks: seq<seq<byte>>, net: nat -> SendResult) {
    forall k :: 0 <= k < |blocks| ==> net(k).Sent? ==> net(k).count >= |blocks[k]|
  }

  lemma {:induction false} RawPayloadAllSent(blocks: seq<seq<byte>>, net: nat -> SendResult, k: nat)
    requires k <= |blocks| && AllSent(blocks, net)
    ensures RawPayload(blocks, net, k) == Flatten(blocks[k..])
    decreases |blocks| - k
  {
    if k < |blocks| {
      assert blocks[k..][1..] == blocks[k + 1..];
      RawPayloadAllSent(blocks, net, k + 1);
    }
  }

  lemma {:induction false} RawPayloadPrefix(blocks: seq<seq<byte>>, net: nat -> SendResult, k: nat)
    requires k <= |blocks| && NeverPartial(blocks, net)
    ensures RawPayload(blocks, net, k) <= Flatten(blocks[k..])
    decreases |blocks| - k
  {
    if k < |blocks| {
      assert blocks[k..][1..] == blocks[k + 1..];
      RawPayloadPrefix(blocks, net, k + 1);
    }
  }

  /**
   * RAW streaming with every send whole delivers exactly the bytes from
   * the offset to the end of the file; with sends never partial, what
   * arrives is always a prefix of them.
   */
  lemma RawDeliversRest(file: seq<byte>, offset: nat, net: nat -> SendResult)
    requires offset <= |file|
    ensures AllSent(Chunks(file[offset..]), net) ==>
      RawPayload(Chunks(file[offset..]), net, 0) == file[offset..]
    ensures NeverPartial(Chunks(file[offset..]), net) ==>
      RawPayload(Chunks(file[offset..]), net, 0) <= file[offset..]
  {
    var blocks := Chunks(file[offset..]);
    FlattenChunks(file[offset..]);
    assert blocks[0..] == blocks;
    if AllSent(blocks, net) {
      RawPayloadAllSent(blocks, net, 0);
    }
    if NeverPartial(blocks, net) {
      RawPayloadPrefix(blocks, net, 0);
    }
  }

  lemma {:induction false} FramedTotalAll(blocks: seq<seq<byte>>, deflate: seq<byte> -> Option<seq<byte>>, k: nat)
    requires k <= |blocks|
    requires forall j :: k <= j < |blocks| ==> !CompressFails(deflate, blocks[j])
    ensures FramedTotal(blocks, deflate, k) == |Flatten(blocks[k..])|
    decreases |blocks| - k
  {
    if k < |blocks| {
      assert blocks[k..][1..] == blocks[k + 1..];
      FramedTotalAll(blocks, deflate, k + 1);
    }
  }

  // ---------------------------------------------------------------------------
  // The server
  // ---------------------------------------------------------------------------

  /** `P2PFileServer` (server.cpp:343-700), without sockets and threads. */
  class FileServer {
    var sharedFiles: map<string, FileInfo>
    var activeConnections: int
    var config: ServerSettings.Settings

    /** Every entry is stored under its own file name. */
    ghost predicate Valid()
      reads this
    {
      forall k :: k in sharedFiles ==> sharedFiles[k].filename == k
    }

    constructor (config: ServerSettings.Settings)
      ensures Valid()
      ensures sharedFiles == map[] && activeConnections == 0 && this.config == config
    {
      sharedFiles := map[];
      activeConnections := 0;
      this.config := config;
    }

    /**
     * `addSharedFile`: a path not on disk changes nothing; otherwise the
     * entry for its final component is set, replacing any entry of that
     * name. `disk` maps each readable file to its contents.
     */
    method AddSharedFile(filepath: string, disk: map<string, seq<byte>>, sha256: seq<byte> -> string)
      requires Valid()
      modifies this`sharedFiles
      ensures Valid()
      ensures filepath !in disk ==> sharedFiles == old(sharedFiles)
      ensures filepath in disk ==>
        var name := WinPath.FileName(filepath);
        sharedFiles == old(sharedFiles)[name := FileInfo(name, filepath, |disk[filepath]|, sha256(disk[filepath]))]
    {
      if filepath !in disk {
        return;
      }
      var contents := disk[filepath];
      var name := WinPath.FileName(filepath);
      var info := FileInfo(name, filepath, |contents|, sha256(contents));
      sharedFiles := sharedFiles[name := info];
    }

    /** `removeFile`: erases exactly that key; `found` says whether it was there. */
    method RemoveFile(filename: string) returns (found: bool)
      requires Valid()
      modifies this`sharedFiles
      ensures Valid()
      ensures found == (filename in old(sharedFiles))
      ensures sharedFiles == old(sharedFiles) - {filename}
    {
      found := filename in sharedFiles;
      if found {
        sharedFiles := sharedFiles - {filename};
      }
    }

    /** `handleListRequest`: walks the map in key order, appending one line per entry. */
    method HandleListRequest() returns (response: string)
      ensures response == ListResponse(sharedFiles)
    {
      if sharedFiles == map[] {
        return NO_FILES;
      }
      response := LIST_TITLE;
      var remaining := sharedFiles.Keys;
      ghost var done: seq<string> := [];
      while remaining != {}
        invariant remaining <= sharedFiles.Keys
        invariant SortedKeys(sharedFiles.Keys) == done + SortedKeys(remaining)
        invariant forall i :: 0 <= i < |done| ==> done[i] in sharedFiles
        invariant response == LIST_TITLE + EntryLines(sharedFiles, done)
        decreases |remaining|
      {
        LeastExists(remaining);
        var k :| k in remaining && IsLeast(k, remaining);
        ListStep(sharedFiles, done, remaining, k);
        response := response + EntryLine(sharedFiles[k]);
        done := done + [k];
        remaining := remaining - {k};
      }
      assert SortedKeys(remaining) == [];
      assert done + [] == done;
    }

    /** `handleChecksumRequest` */
    method HandleChecksumRequest(filename: string) returns (response: string)
      ensures filename in sharedFiles ==> response == "CHECKSUM:" + sharedFiles[filename].sha256 + "\n"
      ensures filename !in sharedFiles ==> response == NOT_FOUND
    {
      if filename !in sharedFiles {
        response := NOT_FOUND;
      } else {
        response := "CHECKSUM:" + sharedFiles[filename].sha256 + "\n";
      }
    }

    /**
     * `sendFile`: the header and payload for `info` from `offset`, and
     * `totalSent` as the server logs it. The file is opened afresh, so its
     * size is the one on disk now, not the one in the catalog.
     */
    method SendFile(info: FileInfo, offset: nat, compress: bool, disk: map<string, seq<byte>>,
                    net: nat -> SendResult, deflate: seq<byte> -> Option<seq<byte>>)
      returns (header: string, payload: seq<byte>, totalSent: nat)
      ensures info.filepath !in disk ==> header == CANNOT_OPEN && payload == []
      ensures info.filepath in disk && offset >= |disk[info.filepath]| ==> header == INVALID_OFFSET && payload == []
      ensures info.filepath in disk && offset < |disk[info.filepath]| ==>
        var file := disk[info.filepath];
        var compressed := compress && config.compression;
        var blocks := Chunks(file[offset..]);
        && header == OkHeader(|file| - offset, compressed)
        && (compressed ==> payload == FramedPayload(blocks, deflate, 0) && totalSent == FramedTotal(blocks, deflate, 0))
        && (!compressed ==> payload == RawPayload(blocks, net, 0) && totalSent == |payload|)
    {
      payload, totalSent := [], 0;
      if info.filepath !in disk {
        return CANNOT_OPEN, [], 0;
      }
      var file := disk[info.filepath];
      if offset >= |file| {
        return INVALID_OFFSET, [], 0;
      }
      var compressed := compress && config.compression;
      header := OkHeader(|file| - offset, compressed);
      payload, totalSent := StreamBlocks(file, offset, compressed, net, deflate);
    }

    /** `handleGetRequest`: an unknown name is answered without a payload. */
    method HandleGetRequest(filename: string, offset: nat, compress: bool, disk: map<string, seq<byte>>,
                            net: nat -> SendResult, deflate: seq<byte> -> Option<seq<byte>>)
      returns (reply: Reply)
      ensures reply.Reply?
      ensures filename !in sharedFiles ==> reply == Reply(NOT_FOUND, [])
      ensures filename in sharedFiles ==> reply == GetReply(sharedFiles[filename], offset, compress && config.compression, disk, net, deflate)
    {
      if filename !in sharedFiles {
        return Reply(NOT_FOUND, []);
      }
      var header, payload, _ := SendFile(sharedFiles[filename], offset, compress, disk, net, deflate);
      SentReply(sharedFiles[filename], offset, compress && config.compression, disk, net, deflate, header, payload);
      reply := Reply(header, payload);
    }

    /**
     * `handleClient` once admitted: `received` is what the first `recv`
     * stored (empty when it returned 0 or an error). Only the text before
     * the first NUL of at most 4095 bytes is the request.
     */
    method HandleClient(received: string, disk: map<string, seq<byte>>,
                        net: nat -> SendResult, deflate: seq<byte> -> Option<seq<byte>>)
      returns (reply: Reply)
      requires Valid()
      modifies this`activeConnections
      ensures activeConnections == old(activeConnections)
      ensures reply == Respond(sharedFiles, config.compression, received, disk, net, deflate)
    {
      activeConnections := activeConnections + 1;
      if received == [] {
        activeConnections := activeConnections - 1;
        return Silent;
      }
      var request := CString(if |received| > 4095 then received[..4095] else received);
      match Classify(request) {
        case List =>
          var text := HandleListRequest();
          reply := Reply(text, []);
        case Get(params) =>
          var filename, offset, compress := ParseGetParams(params);
          reply := HandleGetRequest(filename, offset, compress, disk, net, deflate);
        case Checksum(name) =>
          var text := HandleChecksumRequest(name);
          reply := Reply(text, []);
        case Unknown =>
          reply := Silent;
      }
      activeConnections := activeConnections - 1;
    }

    /**
     * One accepted connection (server.cpp:652-666): at the limit it is
     * refused with `ERROR: Server busy`, otherwise `handleClient` serves it.
     */
    method Accept(received: string, disk: map<string, seq<byte>>,
                  net: nat -> SendResult, deflate: seq<byte> -> Option<seq<byte>>)
      returns (reply: Reply)
      requires Valid()
      modifies this`activeConnections
      ensures activeConnections == old(activeConnections)
      ensures activeConnections >= config.maxConnections ==> reply == Reply(BUSY, [])
      ensures activeConnections < config.maxConnections ==>
        reply == Respond(sharedFiles, config.compression, received, disk, net, deflate)
    {
      if activeConnections >= config.maxConnections {
        return Reply(BUSY, []);
      }
      reply := HandleClient(received, disk, net, deflate);
    }
  }

  /**
   * The read/send loop of `sendFile` (server.cpp:608-632) over the file
   * from `offset`, in COMPRESSED or RAW mode; `file.read` delivers the
   * blocks `Chunks(file[offset..])` (see `ChunksSpec`).
   */
  method StreamBlocks(file: seq<byte>, offset: nat, compressed: bool,
                      net: nat -> SendResult, deflate: seq<byte> -> Option<seq<byte>>)
    returns (payload: seq<byte>, totalSent: nat)
    requires offset <= |file|
    ensures compressed ==>
      payload == FramedPayload(Chunks(file[offset..]), deflate, 0) && totalSent == FramedTotal(Chunks(file[offset..]), deflate, 0)
    ensures !compressed ==> payload == RawPayload(Chunks(file[offset..]), net, 0) && totalSent == |payload|
  {
    payload, totalSent := [], 0;
    var blocks := Chunks(file[offset..]);
    ghost var framed, framedTotal := FramedPayload(blocks, deflate, 0), FramedTotal(blocks, deflate, 0);
    ghost var raw := RawPayload(blocks, net, 0);
    var k := 0;
    while k < |blocks|
      invariant k <= |blocks|
      invariant compressed ==> payload + FramedPayload(blocks, deflate, k) == framed
      invariant compressed ==> totalSent + FramedTotal(blocks, deflate, k) == framedTotal
      invariant !compressed ==> payload + RawPayload(blocks, net, k) == raw
      invariant !compressed ==> totalSent == |payload|
    {
      if compressed {
        FramedStep(blocks, deflate, k, payload, totalSent, framed, framedTotal);
      } else {
        RawStep(blocks, net, k, payload, raw);
      }
      var piece, sent, stop := SendBlock(blocks[k], k, compressed, net, deflate);
      if stop {
        break;
      }
      payload := payload + piece;
      totalSent := totalSent + sent;
      k := k + 1;
    }
    assert payload + [] == payload;
  }

  /**
   * One pass of the `sendFile` loop body (server.cpp:614-631) for block `k`:
   * the bytes it puts on the wire, what it adds to `totalSent`, and whether
   * the loop breaks.
   */
  method SendBlock(block: seq<byte>, k: nat, compressed: bool,
                   net: nat -> SendResult, deflate: seq<byte> -> Option<seq<byte>>)
    returns (piece: seq<byte>, sent: nat, stop: bool)
    ensures compressed ==> (stop <==> CompressFails(deflate, block))
    ensures compressed && !stop ==> piece == Frame(deflate(block).value) && sent == |block|
    ensures !compressed ==> (stop <==> net(k).SocketError?)
    ensures !compressed && !stop ==> piece == block[..Min(net(k).count, |block|)] && sent == |piece|
  {
    if compressed {
      var c := deflate(block);
      if c.None? || c.value == [] {
        return [], 0, true;
      }
      piece, sent, stop := Frame(c.value), |block|, false;
    } else {
      var r := net(k);
      if r.SocketError? {
        return [], 0, true;
      }
      var count := Min(r.count, |block|);
      piece, sent, stop := block[..count], count, false;
    }
  }


  /** What `sendFile` writes, with `compressed` already combined with the server switch. */
  function GetReply(info: FileInfo, offset: nat, compressed: bool, disk: map<string, seq<byte>>,
                    net: nat -> SendResult, deflate: seq<byte> -> Option<seq<byte>>): Reply
  {
    if info.filepath !in disk then Reply(CANNOT_OPEN, [])
    else
      var file := disk[info.filepath];
      if offset >= |file| then Reply(INVALID_OFFSET, [])
      else
        var blocks := Chunks(file[offset..]);
        Reply(OkHeader(|file| - offset, compressed),
              if compressed then FramedPayload(blocks, deflate, 0) else RawPayload(blocks, net, 0))
  }

  /** A header and payload meeting the three cases of `sendFile` are the reply `GetReply` describes. */
  lemma SentReply(info: FileInfo, offset: nat, compressed: bool, disk: map<string, seq<byte>>,
                  net: nat -> SendResult, deflate: seq<byte> -> Option<seq<byte>>, header: string, payload: seq<byte>)
    requires info.filepath !in disk ==> header == CANNOT_OPEN && payload == []
    requires info.filepath in disk && offset >= |disk[info.filepath]| ==> header == INVALID_OFFSET && payload == []
    requires info.filepath in disk && offset < |disk[info.filepath]| ==>
      var blocks := Chunks(disk[info.filepath][offset..]);
      && header == OkHeader(|disk[info.filepath]| - offset, compressed)
      && (compressed ==> payload == FramedPayload(blocks, deflate, 0))
      && (!compressed ==> payload == RawPayload(blocks, net, 0))
    ensures Reply(header, payload) == GetReply(info, offset, compressed, disk, net, deflate)
  {
  }

  /** Everything the server writes on an admitted connection. */
  ghost function Respond(catalog: map<string, FileInfo>, compression: bool, received: string,
                         disk: map<string, seq<byte>>, net: nat -> SendResult,
                         deflate: seq<byte> -> Option<seq<byte>>): Reply
  {
    if received == [] then Silent
    else match Classify(CString(if |received| > 4095 then received[..4095] else received))
      case List => Reply(ListResponse(catalog), [])
      case Get(params) =>
        var (name, offset, compress) := ParseGet(params);
        if name !in catalog then Reply(NOT_FOUND, [])
        else GetReply(catalog[name], offset, compress && compression, disk, net, deflate)
      case Checksum(name) => Reply(ChecksumResponse(catalog, name), [])
      case Unknown => Silent
  }

  /** `PathCompleter`: the Tab key cycles through the matches of the last search. */
  class PathCompleter {
    var matches: seq<string>
    var currentMatch: nat

    ghost predicate Valid()
      reads this
    {
      matches == [] || currentMatch < |matches|
    }

    constructor ()
      ensures Valid() && matches == [] && currentMatch == 0
    {
      matches := [];
      currentMatch := 0;
    }

    /** The reset `findMatches` does before it lists a directory (the listing is not modelled). */
    method SetMatches(found: seq<string>)
      modifies this
      ensures Valid() && matches == found && currentMatch == 0
    {
      matches := found;
      currentMatch := 0;
    }

    /** `getNextMatch`: "" with no matches, else the current one, advancing cyclically. */
    method GetNextMatch() returns (result: string)
      requires Valid()
      modifies this`currentMatch
      ensures Valid()
      ensures old(matches) == [] ==> result == "" && currentMatch == old(currentMatch)
      ensures old(matches) != [] ==>
        result == matches[old(currentMatch)] && currentMatch == (old(currentMatch) + 1) % |matches|
    {
      if matches == [] {
        return "";
      }
      result := matches[currentMatch];
      currentMatch := (currentMatch + 1) % |matches|;
    }
  }
}
