/**
 * The download client of client.cpp: the LIST parser, the GET request it
 * builds, the resume decision, the reply-header parser, the RAW and
 * COMPRESSED receive loops, the completion and checksum gate, and
 * `downloadByIndex`.
 *
 * The server's reply to a GET is a `Response`: the header text and the
 * bytes that follow it. `segment(k)` is what the k-th `recv` of the payload
 * would return at most (0 for a closed or failed connection); zlib's
 * `uncompress` is `inflate`; the disk is a map from path to contents; the
 * SHA-256 hex digest is `sha256`.
 */
module Client {
  import opened Wrappers
  import opened Text
  import opened Bytes
  import ClientSettings
  import WinPath

  /** `FileEntry` (client.cpp:31-35). */
  datatype FileEntry = FileEntry(filename: string, filesize: nat, sha256: string)

  /** The server's reply to a GET: `NoResponse` when the header `recv` returned 0 or failed. */
  datatype Response = NoResponse | Response(header: string, stream: seq<byte>)

  /** How the reply header is read (client.cpp:426-460). */
  datatype Header = ServerError | BadFormat | BadSize | Accepted(size: nat, compressed: bool)

  const AVAILABLE := "Available files"

  // ---------------------------------------------------------------------------
  // LIST
  // ---------------------------------------------------------------------------

  /** `c1` and `c2` are the first and the second ':' of `line`. */
  predicate ListColons(line: string, c1: nat, c2: nat) {
    FirstAt(line, ':', 0, c1) && FirstAt(line, ':', c1 + 1, c2)
  }

  /** The first and second ':' of a line are where `find` finds them. */
  lemma ListColonsFound(line: string)
    ensures forall c1: nat, c2: nat :: ListColons(line, c1, c2) ==>
      FindChar(line, ':', 0) == Some(c1) && FindChar(line, ':', c1 + 1) == Some(c2)
  {
    forall c1: nat, c2: nat | ListColons(line, c1, c2)
      ensures FindChar(line, ':', 0) == Some(c1) && FindChar(line, ':', c1 + 1) == Some(c2)
    {
      FindCharAt(line, ':', 0, c1);
      FindCharAt(line, ':', c1 + 1, c2);
    }
  }

  /** The first and second ':' of a line, found as `find` finds them, when it has two. */
  function ListFields(line: string): (r: Option<(nat, nat)>)
    ensures r.Some? ==> ListColons(line, r.value.0, r.value.1)
    ensures forall c1: nat, c2: nat :: ListColons(line, c1, c2) ==> r == Some((c1, c2))
  {
    ListColonsFound(line);
    match FindChar(line, ':', 0)
    case None => None
    case Some(colon1) =>
      match FindChar(line, ':', colon1 + 1)
      case None => None
      case Some(colon2) => Some((colon1, colon2))
  }

  /**
   * One line of the LIST reply: `name:size:sha256`, split at the first and
   * second ':'. Empty lines, the title and lines without two colons or with
   * a size `stoull` rejects give nothing.
   */
  function ParseListLine(line: string): (r: Option<FileEntry>)
    ensures r.Some? ==> line != [] && !Contains(line, AVAILABLE)
    ensures r.Some? ==> ':' !in r.value.filename && r.value.filesize < UINT64_LIMIT
    ensures r.Some? ==> r.value.filename <= line
    ensures r.Some? <==> (line != [] && !Contains(line, AVAILABLE) &&
      exists c1: nat, c2: nat {:trigger ListColons(line, c1, c2)} :: ListColons(line, c1, c2) && StoULL(line[c1 + 1..c2]).Some?)
    ensures forall c1: nat, c2: nat {:trigger ListColons(line, c1, c2)} :: r.Some? && ListColons(line, c1, c2) ==>
      r.value.filename == line[..c1] && StoULL(line[c1 + 1..c2]) == Some(r.value.filesize) &&
      r.value.sha256 == TrimRight(line[c2 + 1..])
  {
    if line == [] || Contains(line, AVAILABLE) || ListFields(line).None? then None
    else
      var (colon1, colon2) := ListFields(line).value;
      ListEntry(line, colon1, colon2)
  }

  /** The entry of a line split at `colon1` and `colon2`, when `stoull` accepts the size field. */
  function ListEntry(line: string, colon1: nat, colon2: nat): (r: Option<FileEntry>)
    requires ListColons(line, colon1, colon2)
    ensures r.Some? <==> StoULL(line[colon1 + 1..colon2]).Some?
    ensures r.Some? ==> r.value.filename == line[..colon1] && StoULL(line[colon1 + 1..colon2]) == Some(r.value.filesize)
    ensures r.Some? ==> r.value.sha256 == TrimRight(line[colon2 + 1..])
  {
    var size := StoULL(line[colon1 + 1..colon2]);
    if size.None? then None
    else Some(FileEntry(line[..colon1], size.value, TrimRight(line[colon2 + 1..])))
  }

  /** The entries `listFiles` keeps, in the order of the lines. */
  function ParseListing(lines: seq<string>): seq<FileEntry>
  {
    if lines == [] then []
    else Kept(ParseListLine(lines[0])) + ParseListing(lines[1..])
  }

  /** What one line adds to the list: its entry when it parses, nothing otherwise. */
  function Kept(entry: Option<FileEntry>): seq<FileEntry>
  {
    if entry.Some? then [entry.value] else []
  }

  /** One `getline` of the listing loop: the entry it parses, if any, is the next one the listing holds. */
  lemma ListingStep(rest: seq<string>, acc: seq<FileEntry>, whole: seq<FileEntry>, entry: Option<FileEntry>)
    requires rest != [] && acc + ParseListing(rest) == whole
    requires entry == ParseListLine(rest[0])
    ensures (acc + Kept(entry)) + ParseListing(rest[1..]) == whole
  {
    var kept, tail := Kept(entry), ParseListing(rest[1..]);
    assert ParseListing(rest) == kept + tail;
    assert acc + (kept + tail) == (acc + kept) + tail;
  }

  // ---------------------------------------------------------------------------
  // GET request and reply header
  // ---------------------------------------------------------------------------

  /** `GET <name>`, then ` OFFSET <n>` iff n > 0, then ` COMPRESS` iff compressing. */
  function BuildRequest(filename: string, offset: nat, compress: bool): string
  {
    "GET " + filename
    + (if offset > 0 then " OFFSET " + NatToString(offset) else "")
    + (if compress then " COMPRESS" else "")
  }

  /**
   * Where a download starts (client.cpp:347-366): 0 with compression on,
   * otherwise the size of the file already at `savePath` when resuming.
   */
  function ResumeOffset(compression: bool, resume: bool, disk: map<string, seq<byte>>, savePath: string): (r: nat)
    ensures compression ==> r == 0
    ensures !compression && resume && savePath in disk ==> r == |disk[savePath]|
    ensures !(resume && savePath in disk) ==> r == 0
  {
    if compression then 0
    else if resume && savePath in disk then |disk[savePath]|
    else 0
  }

  /** The header check of client.cpp:426-460. */
  function ParseHeader(response: string): (r: Header)
    ensures "ERROR" <= response <==> r == ServerError
    ensures r.Accepted? ==> "OK:" <= response && r.size < UINT64_LIMIT
    ensures r == BadFormat <==> !("ERROR" <= response) && (!("OK:" <= response) || forall j :: 3 <= j < |response| ==> response[j] != ':')
    ensures r == BadSize <==> "OK:" <= response && exists c: nat :: FirstAt(response, ':', 3, c) && StoULL(response[3..c]).None?
    ensures forall c: nat :: r.Accepted? && FirstAt(response, ':', 3, c) ==>
      StoULL(response[3..c]) == Some(r.size) &&
      (r.compressed <==> response[c + 1..] == "COMPRESSED" || ("COMPRESSED\n" <= response[c + 1..] && '\n' !in response[..c]))
  {
    if "ERROR" <= response then assert response[0] == 'E'; ServerError
    else if !("OK:" <= response) then BadFormat
    else match FindChar(response, ':', 3)
      case None => BadFormat
      case Some(colon2) =>
        assert forall c: nat :: FirstAt(response, ':', 3, c) ==> c == colon2;
        match StoULL(response[3..colon2])
        case None => BadSize
        case Some(size) =>
          ModeFieldCompressed(response, colon2);
          Accepted(size, ModeField(response, colon2) == "COMPRESSED")
  }

  /**
   * `response.substr(colon2 + 1, newline - colon2 - 1)` with `newline` the
   * first '\n' of the response: when that newline comes before `colon2`, or
   * there is none, the length wraps around and the field runs to the end.
   */
  function ModeField(response: string, colon2: nat): string
    requires colon2 < |response|
  {
    var newline := FindChar(response, '\n', 0);
    if newline.Some? && newline.value > colon2 then response[colon2 + 1..newline.value]
    else response[colon2 + 1..]
  }

  /** The mode field reads "COMPRESSED" exactly when that word ends the response or is followed by its first newline. */
  lemma ModeFieldCompressed(response: string, colon2: nat)
    requires colon2 < |response| && response[colon2] == ':'
    ensures ModeField(response, colon2) == "COMPRESSED" <==>
      response[colon2 + 1..] == "COMPRESSED" || ("COMPRESSED\n" <= response[colon2 + 1..] && '\n' !in response[..colon2])
  {
    var tail := response[colon2 + 1..];
    var newline := FindChar(response, '\n', 0);
    if newline.Some? && newline.value > colon2 {
      var n := newline.value;
      assert tail[n - colon2 - 1] == '\n';
      assert '\n' !in response[..colon2] by {
        forall j | 0 <= j < colon2 ensures response[..colon2][j] != '\n' { }
      }
      if response[colon2 + 1..n] == "COMPRESSED" {
        assert n == colon2 + 11;
        assert tail[..11] == response[colon2 + 1..n] + ['\n'];
      }
      if "COMPRESSED\n" <= tail {
        assert tail[10] == '\n';
        FindCharAt(response, '\n', 0, colon2 + 11);
        assert response[colon2 + 1..n] == tail[..10];
      }
    } else if newline.Some? {
      assert newline.value < colon2;
      assert response[..colon2][newline.value] == '\n';
      assert '\n' in response[..colon2];
      assert ModeField(response, colon2) == tail;
    } else {
      assert |tail| > 10 ==> tail[10] == response[colon2 + 11];
    }
  }

  // ---------------------------------------------------------------------------
  // Receiving
  // ---------------------------------------------------------------------------

  /**
   * What one `recv` returns: at most what was asked for, what is still
   * in the stream, and what the connection delivers now (`hint`).
   */
  function RecvCount(available: nat, requested: nat, hint: nat): (n: nat)
    ensures n <= available && n <= requested && n <= hint
    ensures n == 0 <==> available == 0 || requested == 0 || hint == 0
  {
    Min(hint, Min(available, requested))
  }

  /** The RAW loop (client.cpp:540-562) from stream position `pos` and recv call `k`. */
  function RawReceive(stream: seq<byte>, pos: nat, k: nat, toReceive: nat, segment: nat -> nat): seq<byte>
    requires pos <= |stream|
    decreases toReceive
  {
    if toReceive == 0 then []
    else
      var n := RecvCount(|stream| - pos, Min(CHUNK_SIZE, toReceive), segment(k));
      if n == 0 then []
      else stream[pos..pos + n] + RawReceive(stream, pos + n, k + 1, toReceive - n, segment)
  }

  /** What the RAW loop writes is the next part of the stream, no longer than was announced. */
  lemma {:induction false} RawReceivePrefix(stream: seq<byte>, pos: nat, k: nat, toReceive: nat, segment: nat -> nat)
    requires pos <= |stream|
    decreases toReceive
    ensures |RawReceive(stream, pos, k, toReceive, segment)| <= toReceive
    ensures pos + |RawReceive(stream, pos, k, toReceive, segment)| <= |stream|
    ensures RawReceive(stream, pos, k, toReceive, segment)
         == stream[pos..pos + |RawReceive(stream, pos, k, toReceive, segment)|]
  {
    var r := RawReceive(stream, pos, k, toReceive, segment);
    var n := RecvCount(|stream| - pos, Min(CHUNK_SIZE, toReceive), segment(k));
    if toReceive == 0 || n == 0 {
      assert r == [];
    } else {
      RawReceivePrefix(stream, pos + n, k + 1, toReceive - n, segment);
      var rest := RawReceive(stream, pos + n, k + 1, toReceive - n, segment);
      assert r == stream[pos..pos + n] + rest;
      PrefixJoin(stream, pos, n, rest, r);
    }
  }

  /** The next `n` bytes followed by the stream part after them are the stream part from `pos`. */
  lemma PrefixJoin(stream: seq<byte>, pos: nat, n: nat, rest: seq<byte>, r: seq<byte>)
    requires pos + n + |rest| <= |stream| && rest == stream[pos + n..pos + n + |rest|]
    requires r == stream[pos..pos + n] + rest
    ensures |r| == n + |rest| && r == stream[pos..pos + |r|]
  {
    AdjacentSlices(stream, pos, pos + n, pos + n + |rest|);
  }

  /** When every `recv` delivers something and the stream holds enough, all of it arrives. */
  lemma {:induction false} RawReceiveComplete(stream: seq<byte>, pos: nat, k: nat, toReceive: nat, segment: nat -> nat)
    requires pos + toReceive <= |stream|
    requires forall j :: segment(j) > 0
    decreases toReceive
    ensures RawReceive(stream, pos, k, toReceive, segment) == stream[pos..pos + toReceive]
  {
    if toReceive > 0 {
      var n := RecvCount(|stream| - pos, Min(CHUNK_SIZE, toReceive), segment(k));
      assert n > 0;
      RawReceiveComplete(stream, pos + n, k + 1, toReceive - n, segment);
      assert stream[pos..pos + n] + stream[pos + n..pos + toReceive] == stream[pos..pos + toReceive];
    }
  }

  /** One `recv` of the RAW loop: nothing ends it, `n` bytes extend what was written. */
  lemma RawStep(stream: seq<byte>, pos: nat, k: nat, toReceive: nat, segment: nat -> nat, n: nat, tail: seq<byte>)
    returns (tail': seq<byte>)
    requires pos <= |stream| && toReceive > 0
    requires n == RecvCount(|stream| - pos, Min(CHUNK_SIZE, toReceive), segment(k))
    requires tail == RawReceive(stream, pos, k, toReceive, segment)
    ensures n == 0 ==> tail == []
    ensures n > 0 ==> pos + n <= |stream| && n <= toReceive
    ensures n > 0 ==> tail' == RawReceive(stream, pos + n, k + 1, toReceive - n, segment)
    ensures n > 0 ==> tail == stream[pos..pos + n] + tail'
  {
    if n > 0 {
      tail' := RawReceive(stream, pos + n, k + 1, toReceive - n, segment);
    } else {
      tail' := [];
    }
  }

  /** Appending a piece to what was written leaves the same total to come. */
  lemma WrittenStep(whole: seq<byte>, written: seq<byte>, piece: seq<byte>, tail: seq<byte>, tail': seq<byte>)
    requires whole == written + tail && tail == piece + tail'
    ensures whole == (written + piece) + tail'
  {
  }

  /**
   * The RAW receive loop (client.cpp:539-561) on the bytes that follow the
   * header: what it writes, `totalReceived` and `bytesToReceive` at the end.
   * What it writes is a prefix of the stream (`RawReceivePrefix`).
   */
  method ReceiveRaw(stream: seq<byte>, offset: nat, remainingSize: nat, segment: nat -> nat)
    returns (written: seq<byte>, totalReceived: nat, bytesToReceive: nat)
    ensures written == RawReceive(stream, 0, 0, remainingSize, segment)
    ensures totalReceived + bytesToReceive == offset + remainingSize
    ensures totalReceived == offset + |written|
  {
    ghost var whole := RawReceive(stream, 0, 0, remainingSize, segment);
    ghost var tail := whole;
    written, totalReceived, bytesToReceive := [], offset, remainingSize;
    var pos: nat, k: nat := 0, 0;
    while bytesToReceive > 0
      invariant pos <= |stream|
      invariant totalReceived == offset + |written|
      invariant totalReceived + bytesToReceive == offset + remainingSize
      invariant whole == written + tail
      invariant tail == RawReceive(stream, pos, k, bytesToReceive, segment)
      decreases bytesToReceive
    {
      var n := RecvCount(|stream| - pos, Min(CHUNK_SIZE, bytesToReceive), segment(k));
      ghost var tail' := RawStep(stream, pos, k, bytesToReceive, segment, n, tail);
      if n == 0 {
        break;
      }
      WrittenStep(whole, written, stream[pos..pos + n], tail, tail');
      written := written + stream[pos..pos + n];
      totalReceived := totalReceived + n;
      bytesToReceive := bytesToReceive - n;
      pos, k, tail := pos + n, k + 1, tail';
    }
    assert written + [] == written;
  }

  /**
   * The inner loop of client.cpp:503-511: reads a frame body of `size`
   * bytes starting at `start` into a buffer of `capacity` bytes; returns
   * how many bytes it got and the next recv call.
   */
  function FrameBody(stream: seq<byte>, start: nat, size: nat, capacity: nat,
                     segment: nat -> nat, k: nat, received: nat): (r: (nat, nat))
    requires start + received <= |stream| && received <= capacity
    decreases size - received
    ensures received <= r.0 <= capacity && start + r.0 <= |stream|
    ensures r.0 <= size || r.0 == received
  {
    if received >= size then (received, k)
    else
      var n := RecvCount(|stream| - (start + received), Min(capacity - received, size - received), segment(k));
      if n == 0 then (received, k + 1)
      else FrameBody(stream, start, size, capacity, segment, k + 1, received + n)
  }

  /** With every recv delivering and a big enough buffer, the whole frame body arrives. */
  lemma {:induction false} FrameBodyComplete(stream: seq<byte>, start: nat, size: nat, capacity: nat,
                                             segment: nat -> nat, k: nat, received: nat)
    requires start + size <= |stream| && received <= size <= capacity
    requires forall j :: segment(j) > 0
    decreases size - received
    ensures FrameBody(stream, start, size, capacity, segment, k, received).0 == size
  {
    if received < size {
      var n := RecvCount(|stream| - (start + received), Min(capacity - received, size - received), segment(k));
      FrameBodyComplete(stream, start, size, capacity, segment, k + 1, received + n);
    }
  }

  /**
   * `decompressData(data, n, CHUNK_SIZE)` as written: `uncompress` into a
   * 64 KiB buffer, and the whole buffer returned whatever `destLen` says.
   */
  function DecompressChunk(inflate: seq<byte> -> Option<seq<byte>>, data: seq<byte>): (r: Option<seq<byte>>)
    ensures r.Some? ==> |r.value| == CHUNK_SIZE
    ensures r.Some? <==> inflate(data).Some? && |inflate(data).value| <= CHUNK_SIZE
    ensures r.Some? ==> r.value == inflate(data).value + Zeros(CHUNK_SIZE - |inflate(data).value|)
  {
    match inflate(data)
    case None => None
    case Some(d) => if |d| > CHUNK_SIZE then None else Some(d + Zeros(CHUNK_SIZE - |d|))
  }

  /**
   * `a - b`, stopping at 0 (client.cpp:529-533): what is still to receive
   * after a block of `b` bytes. It never exceeds `a`, never undercounts what
   * is left, and is 0 unless the block fell short of `a`.
   */
  function SatSub(a: nat, b: nat): (r: nat)
    ensures r <= a && a <= r + b
    ensures r == 0 || r + b == a
    ensures r == 0 <==> a <= b
  {
    if a >= b then a - b else 0
  }

  /**
   * One pass of the outer COMPRESSED loop (client.cpp:493-527) from stream
   * position `pos` and recv call `k`: the 4-byte length, the frame body and
   * its decompression; the block to write, the next position and the next
   * recv call, or `None` where the loop breaks. `corrected` selects the
   * intended behaviour: a receive buffer as large as the frame and blocks
   * of their true length.
   */
  function NextFrame(stream: seq<byte>, pos: nat, k: nat, segment: nat -> nat,
                     inflate: seq<byte> -> Option<seq<byte>>, corrected: bool): (r: Option<(seq<byte>, nat, nat)>)
    requires pos <= |stream|
    ensures r.Some? ==> pos + 4 <= r.value.1 <= |stream|
    ensures r.Some? && !corrected ==> |r.value.0| == CHUNK_SIZE
  {
    if segment(k) == 0 || |stream| - pos < 4 then None
    else SizedFrame(stream, pos, DecodeLE32(stream[pos..pos + 4]), k, segment, inflate, corrected)
  }

  /** The rest of the pass once the 4-byte length has been read as `size`. */
  function SizedFrame(stream: seq<byte>, pos: nat, size: nat, k: nat, segment: nat -> nat,
                      inflate: seq<byte> -> Option<seq<byte>>, corrected: bool): (r: Option<(seq<byte>, nat, nat)>)
    requires pos + 4 <= |stream|
    ensures r.Some? ==> pos + 4 <= r.value.1 <= |stream|
    ensures r.Some? && !corrected ==> |r.value.0| == CHUNK_SIZE
  {
    var capacity := if corrected then size else CHUNK_SIZE;
    var (received, k') := FrameBody(stream, pos + 4, size, capacity, segment, k + 1, 0);
    if received < size then None
    else
      var body := stream[pos + 4..pos + 4 + received];
      var block := if corrected then inflate(body) else DecompressChunk(inflate, body);
      if block.None? then None
      else Some((block.value, pos + 4 + received, k'))
  }

  /** A pass whose `recv` delivers and whose 4-byte length reads `size` goes on as `SizedFrame`. */
  lemma NextFrameSized(stream: seq<byte>, pos: nat, k: nat, segment: nat -> nat,
                       inflate: seq<byte> -> Option<seq<byte>>, corrected: bool, size: nat)
    requires pos + 4 <= |stream| && segment(k) > 0 && DecodeLE32(stream[pos..pos + 4]) == size
    ensures NextFrame(stream, pos, k, segment, inflate, corrected)
         == SizedFrame(stream, pos, size, k, segment, inflate, corrected)
  {
  }

  /** A frame whose body arrives whole and inflates to `block`: the corrected pass yields `block`. */
  lemma SizedFrameWhole(stream: seq<byte>, pos: nat, size: nat, k: nat, segment: nat -> nat,
                        inflate: seq<byte> -> Option<seq<byte>>, block: seq<byte>)
    requires pos + 4 + size <= |stream|
    requires FrameBody(stream, pos + 4, size, size, segment, k + 1, 0).0 == size
    requires inflate(stream[pos + 4..pos + 4 + size]) == Some(block)
    ensures SizedFrame(stream, pos, size, k, segment, inflate, true)
         == Some((block, pos + 4 + size, FrameBody(stream, pos + 4, size, size, segment, k + 1, 0).1))
  {
    var body := FrameBody(stream, pos + 4, size, size, segment, k + 1, 0);
    assert inflate(stream[pos + 4..pos + 4 + body.0]) == Some(block);
  }

  /** A frame announcing `size` bytes that arrive whole and inflate to `block`: the corrected pass yields `block`. */
  lemma FrameWhole(stream: seq<byte>, pos: nat, k: nat, size: nat, block: seq<byte>, segment: nat -> nat,
                   inflate: seq<byte> -> Option<seq<byte>>)
    requires pos + 4 + size <= |stream| && DecodeLE32(stream[pos..pos + 4]) == size
    requires segment(k) > 0 && inflate(stream[pos + 4..pos + 4 + size]) == Some(block)
    requires FrameBody(stream, pos + 4, size, size, segment, k + 1, 0).0 == size
    ensures NextFrame(stream, pos, k, segment, inflate, true)
         == Some((block, pos + 4 + size, FrameBody(stream, pos + 4, size, size, segment, k + 1, 0).1))
  {
    NextFrameSized(stream, pos, k, segment, inflate, true, size);
    SizedFrameWhole(stream, pos, size, k, segment, inflate, block);
  }

  /** A frame of at most 64 KiB that arrives whole and inflates to `block`: the pass as written yields `block` padded to 64 KiB. */
  lemma FramePadded(stream: seq<byte>, pos: nat, k: nat, size: nat, block: seq<byte>, segment: nat -> nat,
                    inflate: seq<byte> -> Option<seq<byte>>)
    requires pos + 4 + size <= |stream| && DecodeLE32(stream[pos..pos + 4]) == size && size <= CHUNK_SIZE
    requires segment(k) > 0 && inflate(stream[pos + 4..pos + 4 + size]) == Some(block) && |block| <= CHUNK_SIZE
    requires FrameBody(stream, pos + 4, size, CHUNK_SIZE, segment, k + 1, 0).0 == size
    ensures NextFrame(stream, pos, k, segment, inflate, false)
         == Some((Padded(block), pos + 4 + size, FrameBody(stream, pos + 4, size, CHUNK_SIZE, segment, k + 1, 0).1))
  {
    NextFrameSized(stream, pos, k, segment, inflate, false, size);
    assert DecompressChunk(inflate, stream[pos + 4..pos + 4 + size]) == Some(Padded(block));
  }

  /**
   * The COMPRESSED loop (client.cpp:491-538): the bytes written and what
   * `bytesToReceive` is when it stops.
   */
  function CompressedLoop(stream: seq<byte>, pos: nat, k: nat, toReceive: nat, segment: nat -> nat,
                          inflate: seq<byte> -> Option<seq<byte>>, corrected: bool): (r: (seq<byte>, nat))
    requires pos <= |stream|
    decreases |stream| - pos
    ensures r.1 <= toReceive
  {
    if toReceive == 0 then ([], 0)
    else match NextFrame(stream, pos, k, segment, inflate, corrected)
      case None => ([], toReceive)
      case Some((block, pos', k')) =>
        var (rest, left) := CompressedLoop(stream, pos', k', SatSub(toReceive, |block|), segment, inflate, corrected);
        (block + rest, left)
  }

  /** As written, every block written is 64 KiB, so the file grows in whole 64 KiB steps. */
  lemma {:induction false} CompressedLoopWholeChunks(stream: seq<byte>, pos: nat, k: nat, toReceive: nat,
                                                      segment: nat -> nat, inflate: seq<byte> -> Option<seq<byte>>)
    requires pos <= |stream|
    decreases |stream| - pos
    ensures |CompressedLoop(stream, pos, k, toReceive, segment, inflate, false).0| % CHUNK_SIZE == 0
  {
    if toReceive > 0 {
      var frame := NextFrame(stream, pos, k, segment, inflate, false);
      if frame.Some? {
        var (block, pos', k') := frame.value;
        var rest := CompressedLoop(stream, pos', k', SatSub(toReceive, |block|), segment, inflate, false).0;
        CompressedLoopWholeChunks(stream, pos', k', SatSub(toReceive, |block|), segment, inflate);
        assert CompressedLoop(stream, pos, k, toReceive, segment, inflate, false).0 == block + rest;
        AddChunk(|rest|);
      }
    }
  }

  /** One `recv` of the frame loop: it ends the loop, or the loop goes on from the bytes it delivered. */
  lemma FrameBodyStep(stream: seq<byte>, start: nat, size: nat, capacity: nat, segment: nat -> nat, k: nat,
                      received: nat, n: nat)
    requires start + received <= |stream| && received <= capacity && received < size
    requires n == RecvCount(|stream| - (start + received), Min(capacity - received, size - received), segment(k))
    ensures n == 0 ==> FrameBody(stream, start, size, capacity, segment, k, received) == (received, k + 1)
    ensures n > 0 ==> received + n <= capacity && start + received + n <= |stream|
    ensures n > 0 ==> FrameBody(stream, start, size, capacity, segment, k, received)
                      == FrameBody(stream, start, size, capacity, segment, k + 1, received + n)
  {
  }

  /**
   * The inner loop of client.cpp:503-511: one frame body into a buffer of
   * `capacity` bytes (64 KiB as written).
   */
  method ReceiveFrame(stream: seq<byte>, start: nat, size: nat, capacity: nat, segment: nat -> nat, k0: nat)
    returns (received: nat, k: nat)
    requires start <= |stream|
    ensures (received, k) == FrameBody(stream, start, size, capacity, segment, k0, 0)
  {
    received, k := 0, k0;
    while received < size
      invariant received <= capacity && start + received <= |stream|
      invariant FrameBody(stream, start, size, capacity, segment, k0, 0)
             == FrameBody(stream, start, size, capacity, segment, k, received)
      decreases size - received
    {
      var n := RecvCount(|stream| - (start + received), Min(capacity - received, size - received), segment(k));
      FrameBodyStep(stream, start, size, capacity, segment, k, received, n);
      k := k + 1;
      if n == 0 {
        break;
      }
      received := received + n;
    }
  }

  /** The body of the outer COMPRESSED loop: the length, the frame body, the decompressed block. */
  method ReadFrame(stream: seq<byte>, pos: nat, k: nat, segment: nat -> nat, inflate: seq<byte> -> Option<seq<byte>>,
                   corrected: bool)
    returns (frame: Option<(seq<byte>, nat, nat)>)
    requires pos <= |stream|
    ensures frame == NextFrame(stream, pos, k, segment, inflate, corrected)
  {
    if segment(k) == 0 || |stream| - pos < 4 {
      return None;
    }
    var size := DecodeLE32(stream[pos..pos + 4]);
    assert NextFrame(stream, pos, k, segment, inflate, corrected)
        == SizedFrame(stream, pos, size, k, segment, inflate, corrected);
    var capacity := if corrected then size else CHUNK_SIZE;
    var received, k' := ReceiveFrame(stream, pos + 4, size, capacity, segment, k + 1);
    if received < size {
      return None;
    }
    var body := stream[pos + 4..pos + 4 + received];
    var block := if corrected then inflate(body) else DecompressChunk(inflate, body);
    if block.None? {
      return None;
    }
    frame := Some((block.value, pos + 4 + received, k'));
  }

  /** One pass of the outer COMPRESSED loop: a frame that fails ends it, a block extends what was written. */
  lemma CompressedStep(stream: seq<byte>, pos: nat, k: nat, toReceive: nat, segment: nat -> nat,
                       inflate: seq<byte> -> Option<seq<byte>>, corrected: bool, written: seq<byte>,
                       frame: Option<(seq<byte>, nat, nat)>)
    requires pos <= |stream| && toReceive > 0
    requires frame == NextFrame(stream, pos, k, segment, inflate, corrected)
    ensures frame.None? ==> CompressedLoop(stream, pos, k, toReceive, segment, inflate, corrected) == ([], toReceive)
    ensures frame.Some? ==>
      var (block, pos', k') := frame.value;
      && pos < pos' <= |stream|
      && written + CompressedLoop(stream, pos, k, toReceive, segment, inflate, corrected).0
         == (written + block) + CompressedLoop(stream, pos', k', SatSub(toReceive, |block|), segment, inflate, corrected).0
      && CompressedLoop(stream, pos, k, toReceive, segment, inflate, corrected).1
         == CompressedLoop(stream, pos', k', SatSub(toReceive, |block|), segment, inflate, corrected).1
  {
    if frame.Some? {
      var (block, pos', k') := frame.value;
      var next := CompressedLoop(stream, pos', k', SatSub(toReceive, |block|), segment, inflate, corrected);
      assert written + (block + next.0) == (written + block) + next.0;
    }
  }

  /**
   * The COMPRESSED receive loop: each pass reads a 4-byte length and the
   * frame, and writes the decompressed block. As written (`corrected`
   * false) every block written is 64 KiB.
   */
  method ReceiveCompressed(stream: seq<byte>, offset: nat, remainingSize: nat, segment: nat -> nat,
                           inflate: seq<byte> -> Option<seq<byte>>, corrected: bool)
    returns (written: seq<byte>, totalReceived: nat, bytesToReceive: nat)
    ensures written == CompressedLoop(stream, 0, 0, remainingSize, segment, inflate, corrected).0
    ensures bytesToReceive == CompressedLoop(stream, 0, 0, remainingSize, segment, inflate, corrected).1
    ensures totalReceived == offset + |written|
    ensures !corrected ==> |written| % CHUNK_SIZE == 0
  {
    ghost var whole := CompressedLoop(stream, 0, 0, remainingSize, segment, inflate, corrected);
    if !corrected {
      CompressedLoopWholeChunks(stream, 0, 0, remainingSize, segment, inflate);
    }
    written, totalReceived, bytesToReceive := [], offset, remainingSize;
    var pos: nat, k: nat := 0, 0;
    while bytesToReceive > 0
      invariant pos <= |stream|
      invariant totalReceived == offset + |written|
      invariant whole.0 == written + CompressedLoop(stream, pos, k, bytesToReceive, segment, inflate, corrected).0
      invariant whole.1 == CompressedLoop(stream, pos, k, bytesToReceive, segment, inflate, corrected).1
      decreases |stream| - pos
    {
      var frame := ReadFrame(stream, pos, k, segment, inflate, corrected);
      CompressedStep(stream, pos, k, bytesToReceive, segment, inflate, corrected, written, frame);
      if frame.None? {
        break;
      }
      var (block, pos', k') := frame.value;
      written := written + block;
      totalReceived := totalReceived + |block|;
      bytesToReceive := SatSub(bytesToReceive, |block|);
      pos, k := pos', k';
    }
    assert written + [] == written;
  }

  // ---------------------------------------------------------------------------
  // The client
  // ---------------------------------------------------------------------------

  /** The first listed entry of that name with a digest, as the loop of client.cpp:589-598 finds it. */
  function ExpectedDigest(files: seq<FileEntry>, filename: string): (r: Option<string>)
    ensures r.Some? ==> r.value != [] && exists i :: 0 <= i < |files| && files[i].filename == filename && files[i].sha256 == r.value
    ensures r.None? <==> forall i :: 0 <= i < |files| ==> files[i].filename != filename || files[i].sha256 == []
    ensures r.Some? ==> exists i :: 0 <= i < |files| && files[i].filename == filename && files[i].sha256 == r.value &&
                                   (forall j :: 0 <= j < i ==> files[j].filename != filename || files[j].sha256 == [])
  {
    if files == [] then None
    else if files[0].filename == filename && files[0].sha256 != [] then Some(files[0].sha256)
    else
      var r := ExpectedDigest(files[1..], filename);
      assert r.Some? ==> files[1..][0..] == files[1..];
      r
  }

  /** What a download did: its result, the request sent, and the disk afterwards. */
  datatype Outcome = Outcome(ok: bool, request: string, disk: map<string, seq<byte>>)

  /** `FileClient` (client.cpp:74-663), without sockets. */
  class FileClient {
    var availableFiles: seq<FileEntry>
    var config: ClientSettings.Settings

    constructor (config: ClientSettings.Settings)
      ensures availableFiles == [] && this.config == config
    {
      availableFiles := [];
      this.config := config;
    }

    /**
     * The parsing half of `listFiles`: `received` is what the one `recv`
     * got (empty when it returned 0 or failed); the list is rebuilt from
     * the text before the first NUL of at most 8191 bytes.
     */
    method ListFiles(received: string) returns (ok: bool)
      modifies this`availableFiles
      ensures ok <==> received != []
      ensures !ok ==> availableFiles == old(availableFiles)
      ensures ok ==> availableFiles == ParseListing(Lines(CString(if |received| > 8191 then received[..8191] else received)))
    {
      if received == [] {
        return false;
      }
      ok := true;
      var lines := Lines(CString(if |received| > 8191 then received[..8191] else received));
      availableFiles := [];
      var rest := lines;
      while rest != []
        invariant availableFiles + ParseListing(rest) == ParseListing(lines)
        decreases |rest|
      {
        var entry := ParseListLine(rest[0]);
        ListingStep(rest, availableFiles, ParseListing(lines), entry);
        if entry.Some? {
          availableFiles := availableFiles + [entry.value];
        } else {
          assert availableFiles + [] == availableFiles;
        }
        rest := rest[1..];
      }
      assert availableFiles + [] == availableFiles;
    }

    /**
     * `verifyChecksum` inside the gate of client.cpp:589-598: the first
     * listed entry of that name with a non-empty digest decides, by exact
     * string comparison with `actual`; no such entry lets the download pass.
     */
    method ChecksumGate(filename: string, actual: string) returns (ok: bool)
      ensures ok <==> (ExpectedDigest(availableFiles, filename).Some? ==> actual == ExpectedDigest(availableFiles, filename).value)
    {
      var i := 0;
      while i < |availableFiles|
        invariant 0 <= i <= |availableFiles|
        invariant ExpectedDigest(availableFiles, filename) == ExpectedDigest(availableFiles[i..], filename)
      {
        assert availableFiles[i..][1..] == availableFiles[i + 1..];
        var file := availableFiles[i];
        if file.filename == filename && file.sha256 != [] {
          return actual == file.sha256;
        }
        i := i + 1;
      }
      return true;
    }

    /**
     * `downloadFile`: the request sent, the file written at `savePath`, and
     * whether the download counts as done. `serve` answers a request.
     */
    method DownloadFile(filename: string, savePath: string, resume: bool, disk: map<string, seq<byte>>,
                        serve: string -> Response, segment: nat -> nat,
                        inflate: seq<byte> -> Option<seq<byte>>, sha256: seq<byte> -> string)
      returns (outcome: Outcome)
      ensures outcome == Download(availableFiles, config.compression, filename, savePath, resume, disk,
                                  serve, segment, inflate, sha256, false)
    {
      var disk' := disk;
      var offset: nat := 0;
      if config.compression {
        if savePath in disk' {
          disk' := disk' - {savePath};
        }
      } else if resume && savePath in disk' {
        offset := |disk'[savePath]|;
      }
      assert disk' == if config.compression then disk - {savePath} else disk;
      var request := BuildRequest(filename, offset, config.compression);
      outcome := Transfer(filename, savePath, offset, disk', request, serve(request), segment, inflate, sha256);
    }

    /** `downloadFile` from the reply header on: receive, write, and the checksum gate. */
    method Transfer(filename: string, savePath: string, offset: nat, disk: map<string, seq<byte>>,
                    request: string, response: Response, segment: nat -> nat,
                    inflate: seq<byte> -> Option<seq<byte>>, sha256: seq<byte> -> string)
      returns (outcome: Outcome)
      requires offset > 0 ==> savePath in disk
      ensures outcome == Fetch(availableFiles, filename, savePath, offset, disk, request, response,
                               segment, inflate, sha256, false)
    {
      if response.NoResponse? {
        return Outcome(false, request, disk);
      }
      var header := ParseHeader(HeaderText(response.header));
      if !header.Accepted? {
        return Outcome(false, request, disk);
      }
      var base := if offset > 0 then disk[savePath] else [];
      var written, bytesToReceive := Receive(response.stream, offset, header.size, header.compressed, segment, inflate);
      var disk' := disk[savePath := base + written];
      if bytesToReceive > 0 {
        return Outcome(false, request, disk');
      }
      var ok := ChecksumGate(filename, sha256(base + written));
      outcome := Outcome(ok, request, disk');
    }

    /** `downloadByIndex`: 1-based; anything outside 1..size is refused and changes nothing. */
    method DownloadByIndex(index: int, disk: map<string, seq<byte>>, serve: string -> Response,
                           segment: nat -> nat, inflate: seq<byte> -> Option<seq<byte>>,
                           sha256: seq<byte> -> string)
      returns (outcome: Outcome)
      ensures !(1 <= index <= |availableFiles|) ==> outcome == Outcome(false, "", disk)
      ensures 1 <= index <= |availableFiles| ==>
        var file := availableFiles[index - 1];
        outcome == Download(availableFiles, config.compression, file.filename,
                            WinPath.Append(config.folder, file.filename), true, disk, serve, segment, inflate, sha256, false)
    {
      if index < 1 || index > |availableFiles| {
        return Outcome(false, "", disk);
      }
      var file := availableFiles[index - 1];
      outcome := DownloadFile(file.filename, WinPath.Append(config.folder, file.filename), true, disk,
                              serve, segment, inflate, sha256);
    }
  }

  /** The header text: the first `recv` of at most 1023 bytes, read up to its first NUL. */
  function HeaderText(received: string): (r: string)
    ensures |r| <= 1023 && r <= received && '\0' !in r
  {
    CString(if |received| > 1023 then received[..1023] else received)
  }

  /**
   * The bytes the receive loop writes and what is left, for the mode the
   * header announced. `corrected` selects, for COMPRESSED, the intended
   * receive buffer and block length instead of the 64 KiB ones as written.
   */
  function Received(stream: seq<byte>, size: nat, compressed: bool, segment: nat -> nat,
                    inflate: seq<byte> -> Option<seq<byte>>, corrected: bool): (r: (seq<byte>, nat))
    ensures r.1 <= size
  {
    if compressed then CompressedLoop(stream, 0, 0, size, segment, inflate, corrected)
    else
      var w := RawReceive(stream, 0, 0, size, segment);
      RawReceivePrefix(stream, 0, 0, size, segment);
      (w, size - |w|)
  }

  /** The receive loop of the announced mode as written (client.cpp:490-563). */
  method Receive(stream: seq<byte>, offset: nat, size: nat, compressed: bool, segment: nat -> nat,
                 inflate: seq<byte> -> Option<seq<byte>>)
    returns (written: seq<byte>, bytesToReceive: nat)
    ensures (written, bytesToReceive) == Received(stream, size, compressed, segment, inflate, false)
  {
    var totalReceived;
    if compressed {
      written, totalReceived, bytesToReceive := ReceiveCompressed(stream, offset, size, segment, inflate, false);
    } else {
      written, totalReceived, bytesToReceive := ReceiveRaw(stream, offset, size, segment);
    }
  }

  /** Everything `downloadFile` does, as one value; `corrected` as for `Received`. */
  function Download(files: seq<FileEntry>, compression: bool, filename: string, savePath: string, resume: bool,
                    disk: map<string, seq<byte>>, serve: string -> Response, segment: nat -> nat,
                    inflate: seq<byte> -> Option<seq<byte>>, sha256: seq<byte> -> string, corrected: bool): Outcome
  {
    var disk1 := if compression then disk - {savePath} else disk;
    var offset := ResumeOffset(compression, resume, disk, savePath);
    var request := BuildRequest(filename, offset, compression);
    Fetch(files, filename, savePath, offset, disk1, request, serve(request), segment, inflate, sha256, corrected)
  }

  /** `downloadFile` once the request is sent: the reply decides. */
  function Fetch(files: seq<FileEntry>, filename: string, savePath: string, offset: nat,
                 disk: map<string, seq<byte>>, request: string, response: Response, segment: nat -> nat,
                 inflate: seq<byte> -> Option<seq<byte>>, sha256: seq<byte> -> string, corrected: bool): Outcome
    requires offset > 0 ==> savePath in disk
  {
    match response
    case NoResponse => Outcome(false, request, disk)
    case Response(header, stream) =>
      match ParseHeader(HeaderText(header))
      case Accepted(size, compressed) =>
        var (written, left) := Received(stream, size, compressed, segment, inflate, corrected);
        var contents := (if offset > 0 then disk[savePath] else []) + written;
        var expected := ExpectedDigest(files, filename);
        Outcome(left == 0 && (expected.Some? ==> sha256(contents) == expected.value), request,
                disk[savePath := contents])
      case _ => Outcome(false, request, disk)
  }
}
