/**
 * The two programs against each other: what the client sends is what the
 * server parses, what the server answers is what the client reads, and a
 * download puts the server's file on the client's disk.
 */
module Protocol {
  import opened Wrappers
  import opened Text
  import opened Bytes
  import Server
  import Client

  /** A server reply as the client receives it. */
  function Deliver(reply: Server.Reply): Client.Response
  {
    match reply
    case Silent => Client.NoResponse
    case Reply(header, payload) => Client.Response(header, payload)
  }

  // ---------------------------------------------------------------------------
  // GET requests
  // ---------------------------------------------------------------------------

  /** A name `iss >> filename` reads back whole. */
  predicate IsToken(name: string) {
    name != [] && forall k :: 0 <= k < |name| ==> !IsSpace(name[k])
  }

  /** A token after one space is read whole, up to the next white space or the end. */
  lemma {:induction false} TokenAfterSpace(s: string, i: nat, token: string)
    requires IsToken(token)
    requires i + 1 + |token| <= |s| && s[i] == ' ' && s[i + 1..i + 1 + |token|] == token
    requires i + 1 + |token| == |s| || IsSpace(s[i + 1 + |token|])
    ensures Server.ReadToken(s, i) == Some((token, i + 1 + |token|))
  {
    assert s[i + 1] == token[0];
    assert s[i..i + 1] == " ";
    SkipRun(s, i, " ", IsSpace);
    SkipRun(s, i + 1, token, NotSpace);
  }

  /** The option loop over what follows the OFFSET part: at most a ` COMPRESS`. */
  lemma {:induction false} CompressTail(s: string, i: nat, offset: nat, compress: bool)
    requires i <= |s| && s[i..] == (if compress then " COMPRESS" else "")
    ensures Server.ScanOptions(s, i, offset, false) == (offset, compress)
  {
    if compress {
      assert s[i + 1..i + 9] == "COMPRESS";
      TokenAfterSpace(s, i, "COMPRESS");
    }
  }

  /** What the client puts after "GET ". */
  function Params(name: string, offset: nat, compress: bool): string
  {
    name + (if offset > 0 then " OFFSET " + NatToString(offset) else "") + (if compress then " COMPRESS" else "")
  }

  /** The name is the first token. */
  lemma {:induction false} FirstToken(s: string, name: string)
    requires IsToken(name) && name <= s
    requires |name| == |s| || s[|name|] == ' '
    ensures Server.ReadToken(s, 0) == Some((name, |name|))
  {
    assert s[0] == name[0];
    assert SkipWhile(s, 0, IsSpace) == 0;
    assert s[0..|name|] == name;
    SkipRun(s, 0, name, NotSpace);
  }

  /** A number after one space is extracted whole. */
  lemma {:induction false} NumberAfterSpace(s: string, j: nat, n: nat)
    requires n < UINT64_LIMIT
    requires j + 1 + |NatToString(n)| <= |s| && s[j] == ' ' && s[j + 1..j + 1 + |NatToString(n)|] == NatToString(n)
    requires j + 1 + |NatToString(n)| == |s| || !IsDigit(s[j + 1 + |NatToString(n)|])
    ensures Server.ExtractSize(s, j) == Server.Extracted(n, j + 1 + |NatToString(n)|)
  {
    var d := NatToString(n);
    assert s[j + 1] == d[0];
    assert s[j..j + 1] == " ";
    SkipRun(s, j, " ", IsSpace);
    ScanNatAt(s, j + 1, n);
  }

  /** The option loop over ` OFFSET <n>` and what may follow it. */
  lemma {:induction false} OffsetTail(s: string, i: nat, offset: nat, compress: bool)
    requires 0 < offset < UINT64_LIMIT
    requires i <= |s| && s[i..] == " OFFSET " + NatToString(offset) + (if compress then " COMPRESS" else "")
    ensures Server.ScanOptions(s, i, 0, false) == (offset, compress)
  {
    var d := NatToString(offset);
    var e := i + 8 + |d|;
    var tail := if compress then " COMPRESS" else "";
    OffsetLayout(s, i, d, tail);
    Keywords();
    TokenAfterSpace(s, i, "OFFSET");
    assert Server.ReadToken(s, i) == Some(("OFFSET", i + 7));
    NumberAfterSpace(s, i + 7, offset);
    assert Server.ExtractSize(s, i + 7) == Server.Extracted(offset, e);
    OffsetStep(s, i, 0, false, offset, e);
    CompressTail(s, e, offset, compress);
  }

  /** Where the parts of ` OFFSET <digits><tail>` lie in `s`. */
  lemma {:induction false} OffsetLayout(s: string, i: nat, d: string, c: string)
    requires i <= |s| && s[i..] == " OFFSET " + d + c
    requires c == [] || c[0] == ' '
    ensures i + 8 + |d| <= |s|
    ensures s[i] == ' ' && s[i + 1..i + 7] == "OFFSET" && s[i + 7] == ' '
    ensures s[i + 8..i + 8 + |d|] == d && s[i + 8 + |d|..] == c
    ensures i + 8 + |d| == |s| || s[i + 8 + |d|] == ' '
  {
    var t := " OFFSET " + d + c;
    assert t[..8] == " OFFSET " && t[8..8 + |d|] == d && t[8 + |d|..] == c;
    assert t[1..7] == t[..8][1..7] == " OFFSET "[1..7] == "OFFSET";
    SliceAt(s, i, t, 0, 1);
    SliceAt(s, i, t, 1, 7);
    SliceAt(s, i, t, 7, 8);
    SliceAt(s, i, t, 8, 8 + |d|);
    SliceAt(s, i, t, 8 + |d|, |t|);
    assert s[i..i + 1] == [s[i]] && s[i + 7..i + 8] == [s[i + 7]];
    if i + 8 + |d| < |s| {
      assert s[i + 8 + |d|] == s[i + 8 + |d|..][0] == c[0];
    }
  }

  /** A slice of the text after `i` is a slice of `s`. */
  lemma {:induction false} SliceAt(s: string, i: nat, t: string, a: nat, b: nat)
    requires i <= |s| && s[i..] == t && a <= b <= |t|
    ensures s[i + a..i + b] == t[a..b]
  {
    forall j | 0 <= j < b - a
      ensures s[i + a..i + b][j] == t[a..b][j]
    {
      assert s[i + a + j] == s[i..][a + j];
    }
  }

  /** The two option keywords are tokens. */
  lemma {:induction false} Keywords()
    ensures IsToken("OFFSET") && IsToken("COMPRESS") && |"OFFSET"| == 6 && IsSpace(' ')
  {
  }

  /** One OFFSET option whose number is read whole: the loop goes on after the number. */
  lemma {:induction false} OffsetStep(s: string, i: nat, offset: nat, compress: bool, v: nat, e: nat)
    requires i + 7 <= |s| && e <= |s|
    requires Server.ReadToken(s, i) == Some(("OFFSET", i + 7))
    requires Server.ExtractSize(s, i + 7) == Server.Extracted(v, e)
    ensures Server.ScanOptions(s, i, offset, compress) == Server.ScanOptions(s, e, v, compress)
  {
    var (token, next) := Server.ReadToken(s, i).value;
    assert token == "OFFSET" && next == i + 7;
  }

  /** Any other option: the loop goes on after it, with compression on if it was COMPRESS. */
  lemma {:induction false} TokenStep(s: string, i: nat, offset: nat, compress: bool, t: string, e: nat)
    requires i <= |s| && e <= |s| && t != "OFFSET"
    requires Server.ReadToken(s, i) == Some((t, e))
    ensures Server.ScanOptions(s, i, offset, compress) == Server.ScanOptions(s, e, offset, compress || t == "COMPRESS")
  {
  }

  /** The server's tokenizer reads back the name, offset and flag the client wrote. */
  lemma {:induction false} ParamsRoundTrip(name: string, offset: nat, compress: bool)
    requires IsToken(name) && offset < UINT64_LIMIT
    ensures Server.ParseGet(Params(name, offset, compress)) == (name, offset, compress)
  {
    var p := Params(name, offset, compress);
    var c := if compress then " COMPRESS" else "";
    var n := |name|;
    var o := if offset > 0 then " OFFSET " + NatToString(offset) else "";
    assert p == name + (o + c);
    assert p[n..] == o + c;
    FirstToken(p, name);
    if offset > 0 {
      OffsetTail(p, n, offset, compress);
    } else {
      CompressTail(p, n, 0, compress);
    }
  }

  /** Option tokens after the name, each preceded by one space. */
  function Options(ts: seq<string>): string
  {
    if ts == [] then [] else " " + ts[0] + Options(ts[1..])
  }

  /** A decimal number below 2^64, as an OFFSET argument. */
  predicate IsNumeral(t: string) {
    t != [] && AllDigits(t) && DigitsValue(t) < UINT64_LIMIT
  }

  /** Every option is a token and every OFFSET is followed by a number. */
  predicate WellSpaced(ts: seq<string>) {
    && (forall k :: 0 <= k < |ts| ==> IsToken(ts[k]))
    && (forall k :: 0 <= k < |ts| && ts[k] == "OFFSET" ==> k + 1 < |ts| && IsNumeral(ts[k + 1]))
  }

  /** The last OFFSET among the options is at `k`. */
  predicate LastOffsetAt(ts: seq<string>, k: nat) {
    k < |ts| && ts[k] == "OFFSET" && forall j :: k < j < |ts| ==> ts[j] != "OFFSET"
  }

  /** The first option after its space, then the rest, which starts with a space if not empty. */
  lemma {:induction false} OptionsShape(ts: seq<string>)
    requires ts != []
    ensures |Options(ts)| == 1 + |ts[0]| + |Options(ts[1..])|
    ensures Options(ts)[0] == ' ' && Options(ts)[1..1 + |ts[0]|] == ts[0]
    ensures Options(ts)[1 + |ts[0]|..] == Options(ts[1..])
    ensures ts[1..] != [] ==> Options(ts[1..])[0] == ' '
  {
    assert Options(ts) == [' '] + ts[0] + Options(ts[1..]);
  }

  /** Where the first option and the rest lie when `s` continues with options. */
  lemma {:induction false} OptionsLayout(s: string, i: nat, ts: seq<string>)
    requires i <= |s| && s[i..] == Options(ts) && ts != []
    ensures i + 1 + |ts[0]| <= |s| && s[i] == ' ' && s[i + 1..i + 1 + |ts[0]|] == ts[0]
    ensures s[i + 1 + |ts[0]|..] == Options(ts[1..])
    ensures i + 1 + |ts[0]| == |s| || s[i + 1 + |ts[0]|] == ' '
  {
    var t := Options(ts);
    var e := 1 + |ts[0]|;
    OptionsShape(ts);
    assert s[i] == s[i..][0];
    SliceAt(s, i, t, 1, e);
    SliceAt(s, i, t, e, |t|);
    if e < |t| {
      assert s[i + e] == s[i..][e];
    }
  }

  /** A number token after one space is extracted whole. */
  lemma {:induction false} NumeralAfterSpace(s: string, j: nat, d: string)
    requires IsNumeral(d)
    requires j + 1 + |d| <= |s| && s[j] == ' ' && s[j + 1..j + 1 + |d|] == d
    requires j + 1 + |d| == |s| || IsSpace(s[j + 1 + |d|])
    ensures Server.ExtractSize(s, j) == Server.Extracted(DigitsValue(d), j + 1 + |d|)
  {
    NumeralAt(s, j + 1, d);
    ExtractAfterSpace(s, j, DigitsValue(d), j + 1 + |d|);
  }

  /** A number token followed by white space or the end scans whole; it starts with no white space. */
  lemma {:induction false} NumeralAt(s: string, i: nat, d: string)
    requires IsNumeral(d)
    requires i + |d| <= |s| && s[i..i + |d|] == d
    requires i + |d| == |s| || IsSpace(s[i + |d|])
    ensures ScanUnsigned(s, i) == Scanned(DigitsValue(d), i + |d|) && !IsSpace(s[i])
  {
    assert i + |d| == |s| || !IsDigit(s[i + |d|]) by {
      if i + |d| < |s| {
        SpaceIsNotDigit(s[i + |d|]);
      }
    }
    ScanDigitsAt(s, i, d);
    assert s[i] == d[0] && IsDigit(d[0]);
    SpaceIsNotDigit(s[i]);
  }

  /** White space is never a digit. */
  lemma {:induction false} SpaceIsNotDigit(c: char)
    ensures IsSpace(c) ==> !IsDigit(c)
  {
  }

  /** After one space, `iss >> n` extracts the number that scans there. */
  lemma {:induction false} ExtractAfterSpace(s: string, j: nat, v: nat, e: nat)
    requires j + 1 < |s| && s[j] == ' ' && !IsSpace(s[j + 1])
    requires ScanUnsigned(s, j + 1) == Scanned(v, e)
    ensures Server.ExtractSize(s, j) == Server.Extracted(v, e)
  {
    assert s[j..j + 1] == " ";
    SkipRun(s, j, " ", IsSpace);
  }

  /** No option is OFFSET. */
  predicate NoOffset(ts: seq<string>) {
    forall k :: 0 <= k < |ts| ==> ts[k] != "OFFSET"
  }

  /**
   * The option loop over option tokens: COMPRESS anywhere turns compression
   * on, every other token but OFFSET is skipped, and the number after the
   * last OFFSET is the offset.
   */
  lemma {:induction false} OptionsScan(s: string, i: nat, ts: seq<string>, offset: nat, compress: bool)
    requires i <= |s| && s[i..] == Options(ts) && WellSpaced(ts)
    ensures Server.ScanOptions(s, i, offset, compress).1 == (compress || "COMPRESS" in ts)
    ensures NoOffset(ts) ==> Server.ScanOptions(s, i, offset, compress).0 == offset
    ensures forall k: nat :: LastOffsetAt(ts, k) ==> Server.ScanOptions(s, i, offset, compress).0 == DigitsValue(ts[k + 1])
    decreases |ts|
  {
    if ts == [] {
      assert i == |s|;
    } else {
      var r := Server.ScanOptions(s, i, offset, compress);
      if ts[0] == "OFFSET" {
        OffsetShiftTwo(ts);
        var j := OffsetOption(s, i, ts, offset, compress);
        OptionsScan(s, j, ts[2..], DigitsValue(ts[1]), compress);
        forall k: nat | LastOffsetAt(ts, k)
          ensures r.0 == DigitsValue(ts[k + 1])
        {
          if k >= 2 {
            assert LastOffsetAt(ts[2..], k - 2) && ts[2..][k - 2 + 1] == ts[k + 1];
          }
        }
      } else {
        var j := OtherOption(s, i, ts, offset, compress);
        OffsetShiftOne(ts);
        OptionsScan(s, j, ts[1..], offset, compress || ts[0] == "COMPRESS");
        forall k: nat | LastOffsetAt(ts, k)
          ensures r.0 == DigitsValue(ts[k + 1])
        {
          assert LastOffsetAt(ts[1..], k - 1) && ts[1..][k - 1 + 1] == ts[k + 1];
        }
      }
    }
  }

  /** One turn of the option loop on an OFFSET: it and its number are read whole. */
  lemma {:induction false} OffsetOption(s: string, i: nat, ts: seq<string>, offset: nat, compress: bool) returns (j: nat)
    requires i <= |s| && s[i..] == Options(ts) && |ts| >= 2 && ts[0] == "OFFSET" && IsNumeral(ts[1])
    ensures j <= |s| && s[j..] == Options(ts[2..])
    ensures Server.ScanOptions(s, i, offset, compress) == Server.ScanOptions(s, j, DigitsValue(ts[1]), compress)
  {
    j := OffsetRead(s, i, ts);
    OffsetStep(s, i, offset, compress, DigitsValue(ts[1]), j);
  }

  /** An OFFSET option and its number are read whole. */
  lemma {:induction false} OffsetRead(s: string, i: nat, ts: seq<string>) returns (j: nat)
    requires i <= |s| && s[i..] == Options(ts) && |ts| >= 2 && ts[0] == "OFFSET" && IsNumeral(ts[1])
    ensures i + 7 <= j <= |s| && s[j..] == Options(ts[2..])
    ensures Server.ReadToken(s, i) == Some(("OFFSET", i + 7))
    ensures Server.ExtractSize(s, i + 7) == Server.Extracted(DigitsValue(ts[1]), j)
  {
    var d := ts[1];
    var rest := ts[1..];
    assert rest[0] == d && rest[1..] == ts[2..];
    OptionsLayout(s, i, ts);
    Keywords();
    var e := i + 7;
    TokenAfterSpace(s, i, "OFFSET");
    OptionsLayout(s, e, rest);
    j := e + 1 + |d|;
    NumeralAfterSpace(s, e, d);
  }

  /** One turn of the option loop on any other option: it is read whole. */
  lemma {:induction false} OtherOption(s: string, i: nat, ts: seq<string>, offset: nat, compress: bool) returns (j: nat)
    requires i <= |s| && s[i..] == Options(ts) && ts != [] && IsToken(ts[0]) && ts[0] != "OFFSET"
    ensures j <= |s| && s[j..] == Options(ts[1..])
    ensures Server.ScanOptions(s, i, offset, compress) == Server.ScanOptions(s, j, offset, compress || ts[0] == "COMPRESS")
  {
    OptionsLayout(s, i, ts);
    TokenAfterSpace(s, i, ts[0]);
    j := i + 1 + |ts[0]|;
    TokenStep(s, i, offset, compress, ts[0], j);
  }

  /** Past a first option other than OFFSET, the options keep their last OFFSET and their COMPRESS. */
  lemma {:induction false} OffsetShiftOne(ts: seq<string>)
    requires WellSpaced(ts) && ts != [] && ts[0] != "OFFSET"
    ensures WellSpaced(ts[1..])
    ensures "COMPRESS" in ts <==> "COMPRESS" in ts[1..] || ts[0] == "COMPRESS"
    ensures NoOffset(ts[1..]) ==> NoOffset(ts)
    ensures forall k: nat :: LastOffsetAt(ts, k) ==> k >= 1 && LastOffsetAt(ts[1..], k - 1)
  {
    assert ts == [ts[0]] + ts[1..];
  }

  /** Past a first OFFSET and its number, the options keep their later OFFSETs and their COMPRESS. */
  lemma {:induction false} OffsetShiftTwo(ts: seq<string>)
    requires WellSpaced(ts) && ts != [] && ts[0] == "OFFSET"
    ensures |ts| >= 2 && IsNumeral(ts[1]) && WellSpaced(ts[2..])
    ensures "COMPRESS" in ts <==> "COMPRESS" in ts[2..]
    ensures !NoOffset(ts)
    ensures forall k: nat :: LastOffsetAt(ts, k) ==>
      (k == 0 && NoOffset(ts[2..])) || (k >= 2 && LastOffsetAt(ts[2..], k - 2))
  {
    assert ts[1] != "OFFSET" && ts[1] != "COMPRESS" by {
      assert IsDigit(ts[1][0]);
    }
    assert ts == [ts[0], ts[1]] + ts[2..];
  }

  /**
   * The server's tokenizer on a name followed by options in any order,
   * unknown ones among them: the name is the first token, compression is
   * on exactly when a COMPRESS option is present, and the offset is the
   * number after the last OFFSET, or 0 when there is none.
   */
  lemma {:induction false} ParseGetTokens(name: string, ts: seq<string>)
    requires IsToken(name) && WellSpaced(ts)
    ensures Server.ParseGet(name + Options(ts)).0 == name
    ensures Server.ParseGet(name + Options(ts)).2 <==> "COMPRESS" in ts
    ensures NoOffset(ts) ==> Server.ParseGet(name + Options(ts)).1 == 0
    ensures forall k: nat :: LastOffsetAt(ts, k) ==> Server.ParseGet(name + Options(ts)).1 == DigitsValue(ts[k + 1])
  {
    var p := name + Options(ts);
    assert p[|name|..] == Options(ts);
    if ts != [] {
      assert Options(ts)[0] == ' ';
      assert p[|name|] == ' ';
    }
    FirstToken(p, name);
    OptionsScan(p, |name|, ts, 0, false);
  }

  /** "GET " and parameters that do not end in a blank are a GET of exactly those parameters. */
  lemma {:induction false} ClassifyGet(p: string)
    requires p == [] || !IsBlank(p[|p| - 1])
    ensures Server.Classify("GET " + p) == Server.Get(p)
  {
    var request := "GET " + p;
    assert request[..4] == "GET ";
    assert request[0] == 'G';
    assert request[4..] == p;
    TrimRightClean(p);
  }

  /** The parameters end in the last character of the name, of the number or of COMPRESS. */
  lemma {:induction false} ParamsEnd(name: string, offset: nat, compress: bool)
    requires IsToken(name)
    ensures var p := Params(name, offset, compress); |p| > 0 && !IsBlank(p[|p| - 1])
  {
    var p := Params(name, offset, compress);
    if compress {
      assert p[|p| - 1] == 'S';
    } else if offset > 0 {
      var d := NatToString(offset);
      assert p[|p| - 1] == d[|d| - 1];
    } else {
      assert p[|p| - 1] == name[|name| - 1];
    }
  }

  /**
   * A request the client builds is classified as a GET whose trimmed
   * parameters are exactly the ones written, and parses back to the same
   * name, offset and COMPRESS flag.
   */
  lemma {:induction false} RequestRoundTrip(name: string, offset: nat, compress: bool)
    requires IsToken(name) && offset < UINT64_LIMIT
    ensures Server.Classify(Client.BuildRequest(name, offset, compress)) == Server.Get(Params(name, offset, compress))
    ensures Server.ParseGet(Params(name, offset, compress)) == (name, offset, compress)
  {
    var p := Params(name, offset, compress);
    assert Client.BuildRequest(name, offset, compress) == "GET " + p;
    ParamsEnd(name, offset, compress);
    ClassifyGet(p);
    ParamsRoundTrip(name, offset, compress);
  }

  /**
   * Served end to end: the server answers a client's GET for a name with
   * no white space and no NUL as `handleGetRequest` would for that name,
   * offset and flag, as long as the request fits the 4095-byte buffer.
   */
  lemma {:induction false} GetServed(catalog: map<string, Server.FileInfo>, compression: bool, name: string, offset: nat,
                  compress: bool, disk: map<string, seq<byte>>, net: nat -> Server.SendResult,
                  deflate: seq<byte> -> Option<seq<byte>>)
    requires IsToken(name) && '\0' !in name && offset < UINT64_LIMIT
    requires |Client.BuildRequest(name, offset, compress)| <= 4095
    ensures Server.Respond(catalog, compression, Client.BuildRequest(name, offset, compress), disk, net, deflate)
         == if name in catalog then Server.GetReply(catalog[name], offset, compress && compression, disk, net, deflate)
            else Server.Reply(Server.NOT_FOUND, [])
  {
    var request := Client.BuildRequest(name, offset, compress);
    RequestRoundTrip(name, offset, compress);
    RequestNoNul(name, offset, compress);
    CStringClean(request);
  }

  /** A request holds a NUL only where the name does. */
  lemma {:induction false} RequestNoNul(name: string, offset: nat, compress: bool)
    requires '\0' !in name
    ensures '\0' !in Client.BuildRequest(name, offset, compress)
  {
    var d := NatToString(offset);
    assert AllDigits(d);
    assert '\0' !in d;
  }

  // ---------------------------------------------------------------------------
  // Reply headers
  // ---------------------------------------------------------------------------

  /** An `OK:<digits>:<mode>` line is accepted with the size the digits spell and that mode. */
  lemma {:induction false} AcceptedHeader(h: string, d: string, n: nat, mode: string)
    requires h == "OK:" + d + ":" + mode + "\n"
    requires StoULL(d) == Some(n) && ':' !in d && '\n' !in d && '\n' !in mode
    ensures Client.ParseHeader(h) == Client.Accepted(n, mode == "COMPRESSED")
  {
    HeaderFields(h, d, mode);
  }

  /** Where the fields of an `OK:` header lie, found as `downloadFile` finds them. */
  lemma {:induction false} HeaderFields(h: string, d: string, mode: string)
    requires h == "OK:" + d + ":" + mode + "\n"
    requires ':' !in d && '\n' !in d && '\n' !in mode
    ensures !("ERROR" <= h) && "OK:" <= h
    ensures FindChar(h, ':', 3) == Some(3 + |d|) && h[3..3 + |d|] == d
    ensures FindChar(h, '\n', 0) == Some(|h| - 1) && |h| - 1 > 3 + |d|
    ensures h[3 + |d| + 1..|h| - 1] == mode
  {
    var colon2 := 3 + |d|;
    var body := "OK:" + d + ":" + mode;
    assert h == body + "\n";
    assert h[..3] == "OK:";
    assert h[0] == 'O';
    forall j | 3 <= j < colon2
      ensures h[j] != ':'
    {
      assert h[j] == d[j - 3];
    }
    FindCharAt(h, ':', 3, colon2);
    assert h[3..colon2] == d;
    forall j | 0 <= j < |body|
      ensures h[j] != '\n'
    {
      assert h[j] == body[j];
    }
    FindCharAt(h, '\n', 0, |body|);
    assert h[colon2 + 1..|body|] == mode;
  }

  /** The client reads the server's `OK:` header back as the size and mode it announced. */
  lemma {:induction false} HeaderRoundTrip(remaining: nat, compressed: bool)
    requires remaining < UINT64_LIMIT
    ensures Client.ParseHeader(Client.HeaderText(Server.OkHeader(remaining, compressed)))
         == Client.Accepted(remaining, compressed)
  {
    var d := NatToString(remaining);
    var mode := if compressed then "COMPRESSED" else "RAW";
    var h := Server.OkHeader(remaining, compressed);
    SizeDigits(remaining);
    assert AllDigits(d);
    assert '\0' !in h by {
      assert h == "OK:" + d + ":" + mode + "\n";
    }
    CStringClean(h);
    StoULLOfString(remaining, []);
    assert d + [] == d;
    AcceptedHeader(h, d, remaining, mode);
  }

  /** An error line the client reads whole stops it with a server error. */
  lemma {:induction false} ErrorLine(h: string)
    requires "ERROR" <= h && '\0' !in h && |h| <= 1023
    ensures Client.ParseHeader(Client.HeaderText(h)) == Client.ServerError
  {
    CStringClean(h);
  }

  /** Every error line the server sends makes the client stop with a server error. */
  lemma {:induction false} ErrorHeaders(h: string)
    requires h == Server.NOT_FOUND || h == Server.CANNOT_OPEN || h == Server.INVALID_OFFSET || h == Server.BUSY
    ensures Client.ParseHeader(Client.HeaderText(h)) == Client.ServerError
  {
    if h == Server.NOT_FOUND {
      ErrorLine(Server.NOT_FOUND);
    } else if h == Server.CANNOT_OPEN {
      ErrorLine(Server.CANNOT_OPEN);
    } else if h == Server.INVALID_OFFSET {
      ErrorLine(Server.INVALID_OFFSET);
    } else {
      ErrorLine(Server.BUSY);
    }
  }

  // ---------------------------------------------------------------------------
  // LIST
  // ---------------------------------------------------------------------------

  /** The client's view of a catalog entry. */
  function Entry(info: Server.FileInfo): Client.FileEntry
  {
    Client.FileEntry(info.filename, info.filesize, info.sha256)
  }

  /** The entries of `keys`, in that order. */
  function Listed(catalog: map<string, Server.FileInfo>, keys: seq<string>): seq<Client.FileEntry>
    requires forall i :: 0 <= i < |keys| ==> keys[i] in catalog
  {
    if keys == [] then [] else [Entry(catalog[keys[0]])] + Listed(catalog, keys[1..])
  }

  /**
   * An entry whose LIST line reads back: the name holds no ':', line break
   * or NUL and does not contain "Available files"; the size fits a
   * `size_t`; the digest (lower-case hex in practice) holds no line break,
   * NUL or 'A' and does not end in white space.
   */
  predicate Listable(info: Server.FileInfo) {
    && ':' !in info.filename && '\n' !in info.filename && '\0' !in info.filename
    && !Contains(info.filename, Client.AVAILABLE)
    && info.filesize < UINT64_LIMIT
    && '\n' !in info.sha256 && '\0' !in info.sha256 && 'A' !in info.sha256
    && (info.sha256 == [] || !IsBlank(info.sha256[|info.sha256| - 1]))
  }

  /** A LIST line without its line break. */
  function EntryText(info: Server.FileInfo): string
  {
    info.filename + ":" + NatToString(info.filesize) + ":" + info.sha256
  }

  /** A LIST line holds "Available files" only where the name does. */
  lemma {:induction false} EntryTextNotTitle(info: Server.FileInfo)
    requires Listable(info)
    ensures !Contains(EntryText(info), Client.AVAILABLE)
  {
    var name, d, sha := info.filename, NatToString(info.filesize), info.sha256;
    var rest := d + [':'] + sha;
    assert EntryText(info) == name + [':'] + rest;
    assert Client.AVAILABLE[0] == 'A';
    assert AllDigits(d);
    ContainsAcross(name, ':', rest, Client.AVAILABLE);
    ContainsAcross(d, ':', sha, Client.AVAILABLE);
    NotContainsForeign(d, Client.AVAILABLE, 0);
    NotContainsForeign(sha, Client.AVAILABLE, 0);
  }

  /** `name:digits:digest` splits at its two colons into the three fields. */
  lemma {:induction false} ListLineFields(line: string, name: string, d: string, n: nat, sha: string)
    requires line == name + ":" + d + ":" + sha
    requires ':' !in name && ':' !in d && StoULL(d) == Some(n)
    requires !Contains(line, Client.AVAILABLE) && TrimRight(sha) == sha
    ensures Client.ParseListLine(line) == Some(Client.FileEntry(name, n, sha))
  {
    ColonFields(line, name, d, sha);
    FindCharPast(line, ':', 0, |name|, name);
    FindCharPast(line, ':', |name| + 1, |name| + 1 + |d|, d);
    assert Client.ListFields(line) == Some((|name|, |name| + 1 + |d|));
  }

  /** Where the fields and the two colons of `name:digits:digest` sit. */
  lemma {:induction false} ColonFields(line: string, name: string, d: string, sha: string)
    requires line == name + ":" + d + ":" + sha
    ensures |line| == |name| + |d| + |sha| + 2
    ensures line[..|name|] == line[0..|name|] == name && line[|name|] == ':'
    ensures line[|name| + 1..|name| + 1 + |d|] == d && line[|name| + 1 + |d|] == ':'
    ensures line[|name| + 1 + |d| + 1..] == sha
  {
    var rest := d + ":" + sha;
    assert line == name + [':'] + rest;
    assert line[|name| + 1..] == rest;
    assert rest[..|d|] == d && rest[|d| + 1..] == sha;
  }

  /** The client parses the server's line for an entry back into that entry. */
  lemma {:induction false} ListLineRoundTrip(info: Server.FileInfo)
    requires Listable(info)
    ensures Client.ParseListLine(EntryText(info)) == Some(Entry(info))
  {
    var d := NatToString(info.filesize);
    assert AllDigits(d);
    EntryTextNotTitle(info);
    StoULLOfString(info.filesize, []);
    assert d + [] == d;
    TrimRightClean(info.sha256);
    ListLineFields(EntryText(info), info.filename, d, info.filesize, info.sha256);
  }

  /** A LIST line is its text and a line break, and the text holds neither a line break nor a NUL. */
  lemma {:induction false} EntryTextClean(info: Server.FileInfo)
    requires Listable(info)
    ensures Server.EntryLine(info) == EntryText(info) + "\n"
    ensures '\n' !in EntryText(info) && '\0' !in EntryText(info)
  {
    var d := NatToString(info.filesize);
    assert AllDigits(d);
    assert '\n' !in d && '\0' !in d;
  }

  lemma {:induction false} ListedTexts(catalog: map<string, Server.FileInfo>, keys: seq<string>)
    requires forall i :: 0 <= i < |keys| ==> keys[i] in catalog && Listable(catalog[keys[i]])
    ensures Server.EntryLines(catalog, keys) == JoinLines(Texts(catalog, keys))
    ensures forall i :: 0 <= i < |Texts(catalog, keys)| ==>
      '\n' !in Texts(catalog, keys)[i] && '\0' !in Texts(catalog, keys)[i]
    ensures Client.ParseListing(Texts(catalog, keys)) == Listed(catalog, keys)
  {
    if keys != [] {
      var info := catalog[keys[0]];
      EntryTextClean(info);
      ListLineRoundTrip(info);
      ListedTexts(catalog, keys[1..]);
    }
  }

  /** The LIST lines of `keys`, without line breaks. */
  function Texts(catalog: map<string, Server.FileInfo>, keys: seq<string>): seq<string>
    requires forall i :: 0 <= i < |keys| ==> keys[i] in catalog
  {
    if keys == [] then [] else [EntryText(catalog[keys[0]])] + Texts(catalog, keys[1..])
  }

  /** A reply of one line without ':' lists nothing. */
  lemma {:induction false} NoticeListing(text: string, line: string)
    requires ':' !in line && '\n' !in line && '\0' !in line
    requires text == line + "\n"
    ensures Client.ParseListing(Lines(CString(text))) == []
  {
    var ls := [line];
    assert text == JoinLines(ls);
    JoinLinesNoNul(ls);
    CStringClean(text);
    LinesOfJoin(ls);
    NoColonNotListed(line);
  }

  /** The reply to an empty catalog is one line without ':'. */
  lemma {:induction false} NoticeFacts()
    ensures Server.NO_FILES == "No files available" + "\n"
    ensures ':' !in "No files available" && '\n' !in "No files available" && '\0' !in "No files available"
  {
  }

  /** A line without ':' is not an entry. */
  lemma {:induction false} NoColonNotListed(line: string)
    requires ':' !in line
    ensures Client.ParseListLine(line) == None
  {
  }

  /** A line that holds "Available files" anywhere is not an entry. */
  lemma {:induction false} TitleNotListed(line: string)
    requires Contains(line, Client.AVAILABLE)
    ensures Client.ParseListLine(line) == None
  {
  }

  /** The LIST title is one line, starts with what the client skips, and holds no NUL. */
  lemma {:induction false} TitleFacts()
    ensures Server.LIST_TITLE == "Available files:" + "\n"
    ensures Client.AVAILABLE <= "Available files:" && '\n' !in "Available files:" && '\0' !in "Available files:"
  {
  }

  /** A reply headed by a title line lists what its lines after the title list. */
  lemma {:induction false} TitledListing(text: string, title: string, texts: seq<string>)
    requires Client.AVAILABLE <= title && '\n' !in title && '\0' !in title
    requires forall i :: 0 <= i < |texts| ==> '\n' !in texts[i] && '\0' !in texts[i]
    requires text == title + "\n" + JoinLines(texts)
    ensures Client.ParseListing(Lines(CString(text))) == Client.ParseListing(texts)
  {
    var ls := [title] + texts;
    assert ls[0] == title && ls[1..] == texts;
    assert text == JoinLines(ls);
    forall i | 0 <= i < |ls|
      ensures '\n' !in ls[i] && '\0' !in ls[i]
    {
      if i > 0 {
        assert ls[i] == texts[i - 1];
      }
    }
    CleanLines(ls);
    TitleNotListed(title);
  }

  /** Lines free of newlines and NULs survive joining, the NUL cut and splitting. */
  lemma {:induction false} CleanLines(ls: seq<string>)
    requires forall i :: 0 <= i < |ls| ==> '\n' !in ls[i] && '\0' !in ls[i]
    ensures Lines(CString(JoinLines(ls))) == ls
  {
    JoinLinesNoNul(ls);
    CStringClean(JoinLines(ls));
    LinesOfJoin(ls);
  }

  /**
   * The client's LIST parser recovers the server's catalog entries in key
   * order, when every entry's line reads back and the reply fits the
   * client's 8191-byte buffer; an empty catalog lists nothing.
   */
  lemma {:induction false} ListingRoundTrip(catalog: map<string, Server.FileInfo>)
    requires forall k :: k in catalog ==> Listable(catalog[k])
    requires |Server.ListResponse(catalog)| <= 8191
    ensures forall i :: 0 <= i < |SortedKeys(catalog.Keys)| ==> SortedKeys(catalog.Keys)[i] in catalog
    ensures Client.ParseListing(Lines(CString(Server.ListResponse(catalog))))
      == Listed(catalog, SortedKeys(catalog.Keys))
  {
    SortedKeysOrdered(catalog.Keys);
    var keys := SortedKeys(catalog.Keys);
    if catalog == map[] {
      assert keys == [];
      NoticeFacts();
      NoticeListing(Server.ListResponse(catalog), "No files available");
    } else {
      ListedTexts(catalog, keys);
      var text := Server.ListResponse(catalog);
      assert text == Server.LIST_TITLE + JoinLines(Texts(catalog, keys));
      TitleFacts();
      TitledListing(text, "Available files:", Texts(catalog, keys));
    }
  }

  // ---------------------------------------------------------------------------
  // Downloads
  // ---------------------------------------------------------------------------

  /** Every `recv` delivers at least one byte: the connection never closes early. */
  ghost predicate Steady(segment: nat -> nat) {
    forall j :: segment(j) > 0
  }

  /** RAW from `offset`: every send whole and every recv delivering, the rest of the file arrives. */
  lemma {:induction false} RawArrives(file: seq<byte>, offset: nat, net: nat -> Server.SendResult, segment: nat -> nat,
                   inflate: seq<byte> -> Option<seq<byte>>, corrected: bool)
    requires offset < |file| && Server.AllSent(Chunks(file[offset..]), net) && Steady(segment)
    ensures Client.Received(Server.RawPayload(Chunks(file[offset..]), net, 0), |file| - offset, false, segment, inflate,
                            corrected)
         == (file[offset..], 0)
  {
    var stream := file[offset..];
    Server.RawDeliversRest(file, offset, net);
    Client.RawReceiveComplete(stream, 0, 0, |stream|, segment);
    assert stream[0..|stream|] == stream;
  }

  /** `uncompress` gives back every block `compress2` compressed. */
  ghost predicate Inverts(deflate: seq<byte> -> Option<seq<byte>>, inflate: seq<byte> -> Option<seq<byte>>) {
    forall b :: deflate(b).Some? ==> inflate(deflate(b).value) == Some(b)
  }

  /** Every block from `k` on compresses to something whose length fits a `uint32_t`, and is not empty. */
  predicate Framable(blocks: seq<seq<byte>>, deflate: seq<byte> -> Option<seq<byte>>, k: nat) {
    forall j :: k <= j < |blocks| ==>
      blocks[j] != [] && !Server.CompressFails(deflate, blocks[j]) && |deflate(blocks[j]).value| < UINT32_LIMIT
  }

  /** Every block from `k` on comes back from `inflate` after `deflate`. */
  ghost predicate InflatesBack(blocks: seq<seq<byte>>, deflate: seq<byte> -> Option<seq<byte>>,
                               inflate: seq<byte> -> Option<seq<byte>>, k: nat) {
    forall j :: k <= j < |blocks| ==> deflate(blocks[j]).Some? && inflate(deflate(blocks[j]).value) == Some(blocks[j])
  }

  /** Inverse compression functions give back every block that compresses. */
  lemma {:induction false} InvertsBlocks(blocks: seq<seq<byte>>, deflate: seq<byte> -> Option<seq<byte>>,
                      inflate: seq<byte> -> Option<seq<byte>>)
    requires Framable(blocks, deflate, 0) && Inverts(deflate, inflate)
    ensures InflatesBack(blocks, deflate, inflate, 0)
  {
    forall j | 0 <= j < |blocks|
      ensures inflate(deflate(blocks[j]).value) == Some(blocks[j])
    {
      assert !Server.CompressFails(deflate, blocks[j]);
    }
  }

  /** A frame in the stream: its first four bytes decode to the length of the bytes after them. */
  lemma {:induction false} FrameAt(stream: seq<byte>, pos: nat, c: seq<byte>)
    requires pos + 4 + |c| <= |stream| && stream[pos..pos + 4 + |c|] == Server.Frame(c)
    requires |c| < UINT32_LIMIT
    ensures DecodeLE32(stream[pos..pos + 4]) == |c| && stream[pos + 4..pos + 4 + |c|] == c
  {
    var f := Server.Frame(c);
    var header := EncodeLE32(|c|);
    assert f == header + c;
    assert stream[pos..pos + 4] == f[..4] == header;
    LE32RoundTrip(|c|);
    assert stream[pos + 4..pos + 4 + |c|] == f[4..];
  }

  /** A frame whose body arrives whole decompresses, with the corrected receive, to the block it carries. */
  lemma {:induction false} FrameArrives(stream: seq<byte>, pos: nat, k: nat, c: seq<byte>, block: seq<byte>, segment: nat -> nat,
                     inflate: seq<byte> -> Option<seq<byte>>)
    requires pos + 4 + |c| <= |stream| && stream[pos..pos + 4 + |c|] == Server.Frame(c)
    requires |c| < UINT32_LIMIT && inflate(c) == Some(block) && segment(k) > 0
    requires Client.FrameBody(stream, pos + 4, |c|, |c|, segment, k + 1, 0).0 == |c|
    ensures Client.NextFrame(stream, pos, k, segment, inflate, true)
         == Some((block, pos + 4 + |c|, Client.FrameBody(stream, pos + 4, |c|, |c|, segment, k + 1, 0).1))
  {
    FrameAt(stream, pos, c);
    Client.FrameWhole(stream, pos, k, |c|, block, segment, inflate);
  }

  /** The framed payload from block `k` is the frame of block `k` followed by the payload from `k + 1`. */
  lemma {:induction false} FramedSplit(stream: seq<byte>, pos: nat, blocks: seq<seq<byte>>, k: nat,
                    deflate: seq<byte> -> Option<seq<byte>>)
    requires pos <= |stream| && k < |blocks| && stream[pos..] == Server.FramedPayload(blocks, deflate, k)
    requires !Server.CompressFails(deflate, blocks[k])
    ensures pos + 4 + |deflate(blocks[k]).value| <= |stream|
    ensures stream[pos..pos + 4 + |deflate(blocks[k]).value|] == Server.Frame(deflate(blocks[k]).value)
    ensures stream[pos + 4 + |deflate(blocks[k]).value|..] == Server.FramedPayload(blocks, deflate, k + 1)
  {
    var c := deflate(blocks[k]).value;
    var f := Server.Frame(c);
    var next := pos + 4 + |c|;
    assert stream[pos..] == f + Server.FramedPayload(blocks, deflate, k + 1);
    assert stream[pos..next] == stream[pos..][..|f|];
    assert stream[next..] == stream[pos..][|f|..];
  }

  /** One whole frame while bytes remain to be received: its block leads what the loop collects. */
  lemma {:induction false} LoopOnFrame(stream: seq<byte>, pos: nat, k: nat, block: seq<byte>, next: nat, k': nat, rest: nat,
                    segment: nat -> nat, inflate: seq<byte> -> Option<seq<byte>>)
    requires pos <= |stream| && block != []
    requires Client.NextFrame(stream, pos, k, segment, inflate, true) == Some((block, next, k'))
    ensures Client.CompressedLoop(stream, pos, k, |block| + rest, segment, inflate, true)
         == (block + Client.CompressedLoop(stream, next, k', rest, segment, inflate, true).0,
             Client.CompressedLoop(stream, next, k', rest, segment, inflate, true).1)
  {
    assert Client.SatSub(|block| + rest, |block|) == rest;
  }

  /** `Flatten` of a suffix peels off its first block. */
  lemma {:induction false} FlattenSuffix(blocks: seq<seq<byte>>, k: nat)
    requires k < |blocks|
    ensures Flatten(blocks[k..]) == blocks[k] + Flatten(blocks[k + 1..])
  {
    assert blocks[k..][1..] == blocks[k + 1..];
  }

  /** The frame of block `k` arrives whole and inflates back to block `k`; the payload from `k + 1` follows. */
  lemma {:induction false} FrameStepArrives(stream: seq<byte>, pos: nat, kk: nat, blocks: seq<seq<byte>>, k: nat,
                         deflate: seq<byte> -> Option<seq<byte>>,
                         inflate: seq<byte> -> Option<seq<byte>>, segment: nat -> nat)
    returns (next: nat, kk': nat)
    requires pos <= |stream| && k < |blocks| && stream[pos..] == Server.FramedPayload(blocks, deflate, k)
    requires Framable(blocks, deflate, k) && InflatesBack(blocks, deflate, inflate, k) && Steady(segment)
    ensures next <= |stream| && stream[next..] == Server.FramedPayload(blocks, deflate, k + 1)
    ensures Client.NextFrame(stream, pos, kk, segment, inflate, true) == Some((blocks[k], next, kk'))
    ensures blocks[k] != [] && Framable(blocks, deflate, k + 1) && InflatesBack(blocks, deflate, inflate, k + 1)
  {
    var b := blocks[k];
    assert !Server.CompressFails(deflate, b) && |deflate(b).value| < UINT32_LIMIT;
    var c := deflate(b).value;
    next := pos + 4 + |c|;
    FramedSplit(stream, pos, blocks, k, deflate);
    Client.FrameBodyComplete(stream, pos + 4, |c|, |c|, segment, kk + 1, 0);
    assert inflate(c) == Some(b);
    FrameArrives(stream, pos, kk, c, b, segment, inflate);
    kk' := Client.FrameBody(stream, pos + 4, |c|, |c|, segment, kk + 1, 0).1;
  }

  /** If the blocks after `k` arrive whole from `next`, then the blocks from `k` arrive whole from `pos`. */
  lemma {:induction false} LoopOnBlocks(stream: seq<byte>, pos: nat, kk: nat, blocks: seq<seq<byte>>, k: nat, next: nat, kk': nat,
                     segment: nat -> nat, inflate: seq<byte> -> Option<seq<byte>>)
    requires pos <= |stream| && next <= |stream| && k < |blocks| && blocks[k] != []
    requires Client.NextFrame(stream, pos, kk, segment, inflate, true) == Some((blocks[k], next, kk'))
    requires Client.CompressedLoop(stream, next, kk', |Flatten(blocks[k + 1..])|, segment, inflate, true)
          == (Flatten(blocks[k + 1..]), 0)
    ensures Client.CompressedLoop(stream, pos, kk, |Flatten(blocks[k..])|, segment, inflate, true)
         == (Flatten(blocks[k..]), 0)
  {
    FlattenSuffix(blocks, k);
    LoopOnFrame(stream, pos, kk, blocks[k], next, kk', |Flatten(blocks[k + 1..])|, segment, inflate);
  }

  /** Frames of whole, invertible blocks on a steady connection arrive as the blocks themselves. */
  lemma {:induction false} FramesArrive(stream: seq<byte>, pos: nat, kk: nat, blocks: seq<seq<byte>>, k: nat,
                                        deflate: seq<byte> -> Option<seq<byte>>,
                                        inflate: seq<byte> -> Option<seq<byte>>, segment: nat -> nat)
    requires pos <= |stream| && k <= |blocks| && stream[pos..] == Server.FramedPayload(blocks, deflate, k)
    requires Framable(blocks, deflate, k) && InflatesBack(blocks, deflate, inflate, k) && Steady(segment)
    decreases |blocks| - k
    ensures Client.CompressedLoop(stream, pos, kk, |Flatten(blocks[k..])|, segment, inflate, true)
         == (Flatten(blocks[k..]), 0)
  {
    if k == |blocks| {
      assert blocks[k..] == [];
    } else {
      var next, kk' := FrameStepArrives(stream, pos, kk, blocks, k, deflate, inflate, segment);
      FramesArrive(stream, next, kk', blocks, k + 1, deflate, inflate, segment);
      LoopOnBlocks(stream, pos, kk, blocks, k, next, kk', segment, inflate);
    }
  }

  /**
   * The corrected COMPRESSED receive over the server's frames of the rest
   * of a file writes exactly that rest and ends with nothing left to receive.
   */
  lemma {:induction false} CompressedArrives(file: seq<byte>, offset: nat, deflate: seq<byte> -> Option<seq<byte>>,
                          inflate: seq<byte> -> Option<seq<byte>>, segment: nat -> nat)
    requires offset < |file| && Framable(Chunks(file[offset..]), deflate, 0)
    requires Inverts(deflate, inflate) && Steady(segment)
    ensures Client.Received(Server.FramedPayload(Chunks(file[offset..]), deflate, 0), |file| - offset, true,
                            segment, inflate, true)
         == (file[offset..], 0)
  {
    var blocks := Chunks(file[offset..]);
    var stream := Server.FramedPayload(blocks, deflate, 0);
    FlattenChunks(file[offset..]);
    InvertsBlocks(blocks, deflate, inflate);
    assert blocks[0..] == blocks;
    assert stream[0..] == stream;
    FramesArrive(stream, 0, 0, blocks, 0, deflate, inflate, segment);
    assert Flatten(blocks[0..]) == file[offset..];
    assert Client.Received(stream, |file| - offset, true, segment, inflate, true)
        == Client.CompressedLoop(stream, 0, 0, |file| - offset, segment, inflate, true);
  }

  // ---------------------------------------------------------------------------
  // The COMPRESSED receive as written, over the server's frames
  // ---------------------------------------------------------------------------

  /** Every block from `k` on compresses to at most 64 KiB: its frame fits the client's receive buffer. */
  predicate FramesFit(blocks: seq<seq<byte>>, deflate: seq<byte> -> Option<seq<byte>>, k: nat) {
    forall j :: k <= j < |blocks| ==> deflate(blocks[j]).Some? && |deflate(blocks[j]).value| <= CHUNK_SIZE
  }

  /** All blocks but the last are 64 KiB, as `Chunks` cuts them. */
  predicate FullBlocks(blocks: seq<seq<byte>>) {
    forall j :: 0 <= j < |blocks| - 1 ==> |blocks[j]| == CHUNK_SIZE
  }

  /** The blocks of a file fit 64 KiB and all but the last are full. */
  lemma {:induction false} ChunksFull(data: seq<byte>)
    ensures Fit(Chunks(data)) && FullBlocks(Chunks(data))
  {
    ChunksSpec(data);
  }

  /** The frame of block `k` arrives whole and, as written, gives block `k` padded to 64 KiB. */
  lemma {:induction false} PaddedStepArrives(stream: seq<byte>, pos: nat, kk: nat, blocks: seq<seq<byte>>, k: nat,
                          deflate: seq<byte> -> Option<seq<byte>>,
                          inflate: seq<byte> -> Option<seq<byte>>, segment: nat -> nat)
    returns (next: nat, kk': nat)
    requires pos <= |stream| && k < |blocks| && stream[pos..] == Server.FramedPayload(blocks, deflate, k)
    requires Framable(blocks, deflate, k) && InflatesBack(blocks, deflate, inflate, k) && Steady(segment)
    requires FramesFit(blocks, deflate, k) && Fit(blocks)
    ensures next <= |stream| && stream[next..] == Server.FramedPayload(blocks, deflate, k + 1)
    ensures Client.NextFrame(stream, pos, kk, segment, inflate, false) == Some((Padded(blocks[k]), next, kk'))
    ensures blocks[k] != [] && Framable(blocks, deflate, k + 1) && InflatesBack(blocks, deflate, inflate, k + 1)
    ensures FramesFit(blocks, deflate, k + 1)
  {
    var b := blocks[k];
    assert !Server.CompressFails(deflate, b) && |deflate(b).value| <= CHUNK_SIZE && |b| <= CHUNK_SIZE;
    var c := deflate(b).value;
    next := pos + 4 + |c|;
    FramedSplit(stream, pos, blocks, k, deflate);
    assert inflate(c) == Some(b);
    kk' := PaddedFrameArrives(stream, pos, kk, c, b, segment, inflate);
  }

  /**
   * As written, a frame of at most 64 KiB arrives whole and decompresses
   * to its block padded to 64 KiB; `k'` is the next `recv` call.
   */
  lemma {:induction false} PaddedFrameArrives(stream: seq<byte>, pos: nat, k: nat, c: seq<byte>, block: seq<byte>, segment: nat -> nat,
                           inflate: seq<byte> -> Option<seq<byte>>)
    returns (k': nat)
    requires pos + 4 + |c| <= |stream| && stream[pos..pos + 4 + |c|] == Server.Frame(c)
    requires |c| <= CHUNK_SIZE && |block| <= CHUNK_SIZE && inflate(c) == Some(block) && Steady(segment)
    ensures Client.NextFrame(stream, pos, k, segment, inflate, false) == Some((Padded(block), pos + 4 + |c|, k'))
  {
    FrameAt(stream, pos, c);
    Client.FrameBodyComplete(stream, pos + 4, |c|, CHUNK_SIZE, segment, k + 1, 0);
    Client.FramePadded(stream, pos, k, |c|, block, segment, inflate);
    k' := Client.FrameBody(stream, pos + 4, |c|, CHUNK_SIZE, segment, k + 1, 0).1;
  }

  /** The suffix of blocks that fit still fits, and its padded form peels off its first block. */
  lemma {:induction false} FlattenPaddedSuffix(blocks: seq<seq<byte>>, k: nat)
    requires k < |blocks| && Fit(blocks)
    ensures Fit(blocks[k..]) && Fit(blocks[k + 1..])
    ensures FlattenPadded(blocks[k..]) == Padded(blocks[k]) + FlattenPadded(blocks[k + 1..])
  {
    assert blocks[k..][1..] == blocks[k + 1..];
  }

  /**
   * As written, each full block subtracts 64 KiB from what is left to
   * receive and the last block ends it: if the blocks after `k` arrive
   * padded from `next`, the blocks from `k` arrive padded from `pos`.
   */
  lemma {:induction false} PaddedLoopOnBlocks(stream: seq<byte>, pos: nat, kk: nat, blocks: seq<seq<byte>>, k: nat, next: nat, kk': nat,
                           segment: nat -> nat, inflate: seq<byte> -> Option<seq<byte>>)
    requires pos <= |stream| && next <= |stream| && k < |blocks| && blocks[k] != []
    requires Fit(blocks) && FullBlocks(blocks)
    requires Client.NextFrame(stream, pos, kk, segment, inflate, false) == Some((Padded(blocks[k]), next, kk'))
    requires Fit(blocks[k + 1..])
    requires Client.CompressedLoop(stream, next, kk', |Flatten(blocks[k + 1..])|, segment, inflate, false)
          == (FlattenPadded(blocks[k + 1..]), 0)
    ensures Fit(blocks[k..])
    ensures Client.CompressedLoop(stream, pos, kk, |Flatten(blocks[k..])|, segment, inflate, false)
         == (FlattenPadded(blocks[k..]), 0)
  {
    FlattenSuffix(blocks, k);
    FlattenPaddedSuffix(blocks, k);
    if k + 1 == |blocks| {
      assert blocks[k + 1..] == [];
    }
    assert Client.SatSub(|Flatten(blocks[k..])|, |Padded(blocks[k])|) == |Flatten(blocks[k + 1..])|;
  }

  /** As written, frames that fit the 64 KiB buffer arrive as their blocks, each padded to 64 KiB. */
  lemma {:induction false} PaddedFramesArrive(stream: seq<byte>, pos: nat, kk: nat, blocks: seq<seq<byte>>, k: nat,
                                              deflate: seq<byte> -> Option<seq<byte>>,
                                              inflate: seq<byte> -> Option<seq<byte>>, segment: nat -> nat)
    requires pos <= |stream| && k <= |blocks| && stream[pos..] == Server.FramedPayload(blocks, deflate, k)
    requires Framable(blocks, deflate, k) && InflatesBack(blocks, deflate, inflate, k) && Steady(segment)
    requires FramesFit(blocks, deflate, k) && Fit(blocks) && FullBlocks(blocks)
    decreases |blocks| - k
    ensures Fit(blocks[k..])
    ensures Client.CompressedLoop(stream, pos, kk, |Flatten(blocks[k..])|, segment, inflate, false)
         == (FlattenPadded(blocks[k..]), 0)
  {
    if k == |blocks| {
      assert blocks[k..] == [];
    } else {
      var next, kk' := PaddedStepArrives(stream, pos, kk, blocks, k, deflate, inflate, segment);
      PaddedFramesArrive(stream, next, kk', blocks, k + 1, deflate, inflate, segment);
      PaddedLoopOnBlocks(stream, pos, kk, blocks, k, next, kk', segment, inflate);
    }
  }

  /**
   * As written, the COMPRESSED receive over the server's frames of the rest
   * of a file, every frame fitting 64 KiB, writes the rest followed by
   * zeros up to the next multiple of 64 KiB, and ends with nothing left to
   * receive.
   */
  lemma {:induction false} PaddedArrives(file: seq<byte>, offset: nat, deflate: seq<byte> -> Option<seq<byte>>,
                      inflate: seq<byte> -> Option<seq<byte>>, segment: nat -> nat)
    requires offset < |file| && Framable(Chunks(file[offset..]), deflate, 0)
    requires FramesFit(Chunks(file[offset..]), deflate, 0)
    requires Inverts(deflate, inflate) && Steady(segment)
    ensures Client.Received(Server.FramedPayload(Chunks(file[offset..]), deflate, 0), |file| - offset, true,
                            segment, inflate, false)
         == (file[offset..] + Zeros(Slack(|file| - offset)), 0)
  {
    var rest := file[offset..];
    PaddedRestArrives(rest, deflate, inflate, segment);
    assert Slack(|rest|) == Slack(|file| - offset);
  }

  /** `PaddedArrives` for the bytes `rest` the server sends. */
  lemma {:induction false} PaddedRestArrives(rest: seq<byte>, deflate: seq<byte> -> Option<seq<byte>>,
                          inflate: seq<byte> -> Option<seq<byte>>, segment: nat -> nat)
    requires Framable(Chunks(rest), deflate, 0) && FramesFit(Chunks(rest), deflate, 0)
    requires Inverts(deflate, inflate) && Steady(segment)
    ensures Client.Received(Server.FramedPayload(Chunks(rest), deflate, 0), |rest|, true, segment, inflate, false)
         == (rest + Zeros(Slack(|rest|)), 0)
  {
    var blocks := Chunks(rest);
    var stream := Server.FramedPayload(blocks, deflate, 0);
    FlattenChunks(rest);
    PaddedChunks(rest);
    ChunksFull(rest);
    InvertsBlocks(blocks, deflate, inflate);
    PaddedBlocksArrive(stream, blocks, deflate, inflate, segment);
    assert Client.Received(stream, |rest|, true, segment, inflate, false)
        == Client.CompressedLoop(stream, 0, 0, |rest|, segment, inflate, false);
  }

  /** As written, the frames of all the blocks arrive as the blocks padded to 64 KiB. */
  lemma {:induction false} PaddedBlocksArrive(stream: seq<byte>, blocks: seq<seq<byte>>, deflate: seq<byte> -> Option<seq<byte>>,
                           inflate: seq<byte> -> Option<seq<byte>>, segment: nat -> nat)
    requires stream == Server.FramedPayload(blocks, deflate, 0)
    requires Framable(blocks, deflate, 0) && InflatesBack(blocks, deflate, inflate, 0) && Steady(segment)
    requires FramesFit(blocks, deflate, 0) && Fit(blocks) && FullBlocks(blocks)
    ensures Client.CompressedLoop(stream, 0, 0, |Flatten(blocks)|, segment, inflate, false)
         == (FlattenPadded(blocks), 0)
  {
    assert blocks[0..] == blocks;
    assert stream[0..] == stream;
    PaddedFramesArrive(stream, 0, 0, blocks, 0, deflate, inflate, segment);
  }

  /**
   * What the client writes for the rest of a served file: the rest itself,
   * or, where the receive as written pads every COMPRESSED block, the rest
   * followed by zeros up to the next multiple of 64 KiB.
   */
  function Arrival(rest: seq<byte>, padded: bool): seq<byte>
  {
    if padded then rest + Zeros(Slack(|rest|)) else rest
  }

  /** The file as the save path holds it after a download from `offset`. */
  function Saved(file: seq<byte>, offset: nat, padded: bool): seq<byte>
    requires offset <= |file|
  {
    if padded then file + Zeros(Slack(|file| - offset)) else file
  }

  /**
   * The save path holds exactly the file unless the blocks were padded and
   * the part sent is not a whole number of 64 KiB blocks.
   */
  lemma {:induction false} SavedWhole(file: seq<byte>, offset: nat, padded: bool)
    requires offset <= |file|
    ensures Saved(file, offset, padded) == file <==> !padded || (|file| - offset) % CHUNK_SIZE == 0
    ensures |Saved(file, offset, padded)| == |file| + (if padded then Slack(|file| - offset) else 0)
  {
    if padded && (|file| - offset) % CHUNK_SIZE != 0 {
      assert |Saved(file, offset, padded)| > |file|;
    }
  }

  /**
   * The client's handling of the server's reply to a GET it can serve: the
   * save path ends up holding the file (the resumed prefix and the rest,
   * padded to whole 64 KiB blocks where the COMPRESSED receive as written
   * pads), and the download counts as done exactly when the listed digest,
   * if any, matches what was saved.
   */
  lemma {:induction false} ServedFetch(files: seq<Client.FileEntry>, filename: string, savePath: string, offset: nat,
                    disk: map<string, seq<byte>>, request: string, info: Server.FileInfo, compressed: bool,
                    file: seq<byte>, serverDisk: map<string, seq<byte>>, net: nat -> Server.SendResult,
                    deflate: seq<byte> -> Option<seq<byte>>, segment: nat -> nat,
                    inflate: seq<byte> -> Option<seq<byte>>, sha256: seq<byte> -> string, corrected: bool)
    requires info.filepath in serverDisk && serverDisk[info.filepath] == file
    requires offset < |file| && |file| - offset < UINT64_LIMIT
    requires offset > 0 ==> savePath in disk && disk[savePath] == file[..offset]
    requires Steady(segment)
    requires !compressed ==> Server.AllSent(Chunks(file[offset..]), net)
    requires compressed ==> Framable(Chunks(file[offset..]), deflate, 0) && Inverts(deflate, inflate)
    requires compressed && !corrected ==> FramesFit(Chunks(file[offset..]), deflate, 0)
    ensures Client.Fetch(files, filename, savePath, offset, disk, request,
                         Deliver(Server.GetReply(info, offset, compressed, serverDisk, net, deflate)),
                         segment, inflate, sha256, corrected)
         == Client.Outcome(Client.ExpectedDigest(files, filename).Some? ==>
                             sha256(Saved(file, offset, compressed && !corrected))
                             == Client.ExpectedDigest(files, filename).value,
                           request, disk[savePath := Saved(file, offset, compressed && !corrected)])
  {
    var header := Server.OkHeader(|file| - offset, compressed);
    var payload := if compressed then Server.FramedPayload(Chunks(file[offset..]), deflate, 0)
                   else Server.RawPayload(Chunks(file[offset..]), net, 0);
    ServedReply(info, offset, compressed, file, serverDisk, net, deflate);
    assert Deliver(Server.GetReply(info, offset, compressed, serverDisk, net, deflate))
        == Client.Response(header, payload);
    var padded := compressed && !corrected;
    var written := Arrival(file[offset..], padded);
    var size := |file| - offset;
    PayloadArrives(file, offset, compressed, net, deflate, segment, inflate, corrected);
    HeaderRoundTrip(size, compressed);
    assert Client.ParseHeader(Client.HeaderText(header)) == Client.Accepted(size, compressed);
    FetchAccepted(files, filename, savePath, offset, disk, request, header, payload, size,
                  compressed, written, segment, inflate, sha256, corrected);
    ResumedSaved(disk, savePath, file, offset, padded);
  }

  /**
   * What the server sends for a file it can read arrives at the client:
   * RAW whole, COMPRESSED whole with the corrected receive and, as
   * written, padded to whole 64 KiB blocks.
   */
  lemma {:induction false} ServedArrives(info: Server.FileInfo, offset: nat, compressed: bool, file: seq<byte>,
                      serverDisk: map<string, seq<byte>>, net: nat -> Server.SendResult,
                      deflate: seq<byte> -> Option<seq<byte>>, segment: nat -> nat,
                      inflate: seq<byte> -> Option<seq<byte>>, corrected: bool)
    requires info.filepath in serverDisk && serverDisk[info.filepath] == file && offset < |file|
    requires Steady(segment)
    requires !compressed ==> Server.AllSent(Chunks(file[offset..]), net)
    requires compressed ==> Framable(Chunks(file[offset..]), deflate, 0) && Inverts(deflate, inflate)
    requires compressed && !corrected ==> FramesFit(Chunks(file[offset..]), deflate, 0)
    ensures Server.GetReply(info, offset, compressed, serverDisk, net, deflate).Reply?
    ensures Server.GetReply(info, offset, compressed, serverDisk, net, deflate).header
         == Server.OkHeader(|file| - offset, compressed)
    ensures Client.Received(Server.GetReply(info, offset, compressed, serverDisk, net, deflate).payload,
                            |file| - offset, compressed, segment, inflate, corrected)
         == (Arrival(file[offset..], compressed && !corrected), 0)
  {
    ServedReply(info, offset, compressed, file, serverDisk, net, deflate);
    PayloadArrives(file, offset, compressed, net, deflate, segment, inflate, corrected);
  }

  /**
   * The client keeps no resume record: a RAW resume appends the rest of the
   * file to whatever the save path holds, the offset being its size
   * (client.cpp:361-366). A stale partial file is extended blindly; the
   * saved bytes then differ from the file (`StaleDiffers`), and only the
   * checksum gate can notice.
   */
  lemma {:induction false} StaleResumeAppends(files: seq<Client.FileEntry>, filename: string, savePath: string,
                    stale: seq<byte>, disk: map<string, seq<byte>>, request: string, info: Server.FileInfo,
                    file: seq<byte>, serverDisk: map<string, seq<byte>>, net: nat -> Server.SendResult,
                    deflate: seq<byte> -> Option<seq<byte>>, segment: nat -> nat,
                    inflate: seq<byte> -> Option<seq<byte>>, sha256: seq<byte> -> string, corrected: bool)
    requires info.filepath in serverDisk && serverDisk[info.filepath] == file
    requires savePath in disk && disk[savePath] == stale && 0 < |stale| < |file|
    requires |file| - |stale| < UINT64_LIMIT
    requires Steady(segment) && Server.AllSent(Chunks(file[|stale|..]), net)
    ensures Client.Fetch(files, filename, savePath, |stale|, disk, request,
                         Deliver(Server.GetReply(info, |stale|, false, serverDisk, net, deflate)),
                         segment, inflate, sha256, corrected)
         == Client.Outcome(Client.ExpectedDigest(files, filename).Some? ==>
                             sha256(stale + file[|stale|..]) == Client.ExpectedDigest(files, filename).value,
                           request, disk[savePath := stale + file[|stale|..]])
  {
    var offset := |stale|;
    var header := Server.OkHeader(|file| - offset, false);
    var payload := Server.RawPayload(Chunks(file[offset..]), net, 0);
    ServedReply(info, offset, false, file, serverDisk, net, deflate);
    assert Deliver(Server.GetReply(info, offset, false, serverDisk, net, deflate)) == Client.Response(header, payload);
    RawPayloadArrives(file, offset, net, deflate, segment, inflate, corrected);
    HeaderRoundTrip(|file| - offset, false);
    FetchAccepted(files, filename, savePath, offset, disk, request, header, payload, |file| - offset, false,
                  file[offset..], segment, inflate, sha256, corrected);
  }

  /** The RAW payload for the rest of a file arrives as exactly that rest. */
  lemma {:induction false} RawPayloadArrives(file: seq<byte>, offset: nat, net: nat -> Server.SendResult,
                          deflate: seq<byte> -> Option<seq<byte>>, segment: nat -> nat,
                          inflate: seq<byte> -> Option<seq<byte>>, corrected: bool)
    requires offset < |file| && Steady(segment) && Server.AllSent(Chunks(file[offset..]), net)
    ensures Client.Received(Server.RawPayload(Chunks(file[offset..]), net, 0), |file| - offset, false, segment, inflate, corrected)
         == (file[offset..], 0)
  {
    PayloadArrives(file, offset, false, net, deflate, segment, inflate, corrected);
  }

  /** A prefix other than the file's own, followed by the file's tail, is not the file. */
  lemma {:induction false} StaleDiffers(stale: seq<byte>, file: seq<byte>)
    requires |stale| <= |file|
    ensures stale != file[..|stale|] ==> stale + file[|stale|..] != file
  {
    assert (stale + file[|stale|..])[..|stale|] == stale;
  }

  /** The payload of the OK reply for the rest of a file arrives as `Arrival` says. */
  lemma {:induction false} PayloadArrives(file: seq<byte>, offset: nat, compressed: bool, net: nat -> Server.SendResult,
                       deflate: seq<byte> -> Option<seq<byte>>, segment: nat -> nat,
                       inflate: seq<byte> -> Option<seq<byte>>, corrected: bool)
    requires offset < |file| && Steady(segment)
    requires !compressed ==> Server.AllSent(Chunks(file[offset..]), net)
    requires compressed ==> Framable(Chunks(file[offset..]), deflate, 0) && Inverts(deflate, inflate)
    requires compressed && !corrected ==> FramesFit(Chunks(file[offset..]), deflate, 0)
    ensures Client.Received(if compressed then Server.FramedPayload(Chunks(file[offset..]), deflate, 0)
                            else Server.RawPayload(Chunks(file[offset..]), net, 0),
                            |file| - offset, compressed, segment, inflate, corrected)
         == (Arrival(file[offset..], compressed && !corrected), 0)
  {
    if !compressed {
      RawArrives(file, offset, net, segment, inflate, corrected);
    } else {
      FramesReceived(file, offset, deflate, segment, inflate, corrected);
    }
  }

  /** The frames of the rest of a file arrive whole with the corrected receive and padded as written. */
  lemma {:induction false} FramesReceived(file: seq<byte>, offset: nat, deflate: seq<byte> -> Option<seq<byte>>, segment: nat -> nat,
                       inflate: seq<byte> -> Option<seq<byte>>, corrected: bool)
    requires offset < |file| && Steady(segment)
    requires Framable(Chunks(file[offset..]), deflate, 0) && Inverts(deflate, inflate)
    requires !corrected ==> FramesFit(Chunks(file[offset..]), deflate, 0)
    ensures Client.Received(Server.FramedPayload(Chunks(file[offset..]), deflate, 0), |file| - offset, true,
                            segment, inflate, corrected)
         == (Arrival(file[offset..], !corrected), 0)
  {
    if corrected {
      CompressedArrives(file, offset, deflate, inflate, segment);
    } else {
      PaddedArrives(file, offset, deflate, inflate, segment);
    }
  }

  /** A file the server can read from `offset` is answered with the OK header and the blocks after `offset`. */
  lemma {:induction false} ServedReply(info: Server.FileInfo, offset: nat, compressed: bool, file: seq<byte>,
                    serverDisk: map<string, seq<byte>>, net: nat -> Server.SendResult,
                    deflate: seq<byte> -> Option<seq<byte>>)
    requires info.filepath in serverDisk && serverDisk[info.filepath] == file && offset < |file|
    ensures Server.GetReply(info, offset, compressed, serverDisk, net, deflate)
         == Server.Reply(Server.OkHeader(|file| - offset, compressed),
                         if compressed then Server.FramedPayload(Chunks(file[offset..]), deflate, 0)
                         else Server.RawPayload(Chunks(file[offset..]), net, 0))
  {
  }

  /** The saved prefix and what arrives for the rest make up the saved file. */
  lemma {:induction false} ResumedSaved(disk: map<string, seq<byte>>, savePath: string, file: seq<byte>, offset: nat, padded: bool)
    requires offset <= |file|
    requires offset > 0 ==> savePath in disk && disk[savePath] == file[..offset]
    ensures (if offset > 0 then disk[savePath] else []) + Arrival(file[offset..], padded) == Saved(file, offset, padded)
  {
    assert file[..offset] + file[offset..] == file;
    if padded {
      assert file[..offset] + (file[offset..] + Zeros(Slack(|file| - offset)))
          == (file[..offset] + file[offset..]) + Zeros(Slack(|file| - offset));
    }
  }

  /** An accepted reply whose bytes all arrive: the save path gets the base and the bytes, and the gate decides. */
  lemma {:induction false} FetchAccepted(files: seq<Client.FileEntry>, filename: string, savePath: string, offset: nat,
                      disk: map<string, seq<byte>>, request: string, header: string, stream: seq<byte>,
                      size: nat, compressed: bool, written: seq<byte>, segment: nat -> nat,
                      inflate: seq<byte> -> Option<seq<byte>>, sha256: seq<byte> -> string, corrected: bool)
    requires offset > 0 ==> savePath in disk
    requires Client.ParseHeader(Client.HeaderText(header)) == Client.Accepted(size, compressed)
    requires Client.Received(stream, size, compressed, segment, inflate, corrected) == (written, 0)
    ensures Client.Fetch(files, filename, savePath, offset, disk, request, Client.Response(header, stream),
                         segment, inflate, sha256, corrected)
         == Client.Outcome(Client.ExpectedDigest(files, filename).Some? ==>
                             sha256((if offset > 0 then disk[savePath] else []) + written)
                             == Client.ExpectedDigest(files, filename).value,
                           request, disk[savePath := (if offset > 0 then disk[savePath] else []) + written])
  {
  }

  /**
   * A download whose request the server answers as `handleGetRequest`
   * would: the client writes the file at the save path (padded to whole
   * 64 KiB blocks where the COMPRESSED receive as written pads) and reports
   * success exactly when the listed digest, if any, matches what it wrote.
   */
  lemma {:induction false} DownloadServed(info: Server.FileInfo, serverCompression: bool,
                       serverDisk: map<string, seq<byte>>, net: nat -> Server.SendResult,
                       deflate: seq<byte> -> Option<seq<byte>>, files: seq<Client.FileEntry>, compression: bool,
                       filename: string, savePath: string, resume: bool, disk: map<string, seq<byte>>,
                       serve: string -> Client.Response, segment: nat -> nat,
                       inflate: seq<byte> -> Option<seq<byte>>, sha256: seq<byte> -> string, corrected: bool,
                       file: seq<byte>, offset: nat)
    requires offset == Client.ResumeOffset(compression, resume, disk, savePath)
    requires serve(Client.BuildRequest(filename, offset, compression))
          == Deliver(Server.GetReply(info, offset, compression && serverCompression, serverDisk, net, deflate))
    requires info.filepath in serverDisk && serverDisk[info.filepath] == file
    requires offset < |file| < UINT64_LIMIT
    requires offset > 0 ==> disk[savePath] == file[..offset]
    requires Steady(segment)
    requires !(compression && serverCompression) ==> Server.AllSent(Chunks(file[offset..]), net)
    requires compression && serverCompression ==> Framable(Chunks(file[offset..]), deflate, 0) && Inverts(deflate, inflate)
    requires compression && serverCompression && !corrected ==> FramesFit(Chunks(file[offset..]), deflate, 0)
    ensures Client.Download(files, compression, filename, savePath, resume, disk, serve, segment, inflate, sha256,
                            corrected)
         == Client.Outcome(Client.ExpectedDigest(files, filename).Some? ==>
                             sha256(Saved(file, offset, compression && serverCompression && !corrected))
                             == Client.ExpectedDigest(files, filename).value,
                           Client.BuildRequest(filename, offset, compression),
                           disk[savePath := Saved(file, offset, compression && serverCompression && !corrected)])
  {
    var request := Client.BuildRequest(filename, offset, compression);
    var disk1 := if compression then disk - {savePath} else disk;
    var saved := Saved(file, offset, compression && serverCompression && !corrected);
    assert Client.Download(files, compression, filename, savePath, resume, disk, serve, segment, inflate, sha256,
                           corrected)
        == Client.Fetch(files, filename, savePath, offset, disk1, request, serve(request), segment, inflate, sha256,
                        corrected);
    var gate := Client.ExpectedDigest(files, filename).Some? ==> sha256(saved) == Client.ExpectedDigest(files, filename).value;
    var reply := Deliver(Server.GetReply(info, offset, compression && serverCompression, serverDisk, net, deflate));
    assert Client.Fetch(files, filename, savePath, offset, disk1, request, reply, segment, inflate, sha256, corrected)
        == Client.Outcome(gate, request, disk1[savePath := saved]) by {
      ServedFetch(files, filename, savePath, offset, disk1, request, info, compression && serverCompression,
                  file, serverDisk, net, deflate, segment, inflate, sha256, corrected);
    }
    if compression {
      OverwriteRemoved(disk, savePath, saved);
    }
  }

  /** Writing a path after deleting it is writing it. */
  lemma {:induction false} OverwriteRemoved(disk: map<string, seq<byte>>, path: string, contents: seq<byte>)
    ensures (disk - {path})[path := contents] == disk[path := contents]
  {
  }

  /**
   * A download end to end, the client's `serve` being the server: for a
   * shared file the server can read, the client writes the file at the save
   * path and reports success exactly when the listed digest, if any,
   * matches what it wrote. A RAW resume continues a saved prefix of the
   * file. RAW, and COMPRESSED with the corrected receive, write exactly
   * the file; COMPRESSED as written pads it with zeros to a whole number
   * of 64 KiB blocks (`SavedWhole` says when that is still the file).
   */
  lemma {:induction false} DownloadEndToEnd(catalog: map<string, Server.FileInfo>, serverCompression: bool,
                         serverDisk: map<string, seq<byte>>, net: nat -> Server.SendResult,
                         deflate: seq<byte> -> Option<seq<byte>>, files: seq<Client.FileEntry>, compression: bool,
                         filename: string, savePath: string, resume: bool, disk: map<string, seq<byte>>,
                         serve: string -> Client.Response, segment: nat -> nat,
                         inflate: seq<byte> -> Option<seq<byte>>, sha256: seq<byte> -> string, corrected: bool,
                         file: seq<byte>, offset: nat)
    requires forall r :: serve(r) == Deliver(Server.Respond(catalog, serverCompression, r, serverDisk, net, deflate))
    requires IsToken(filename) && '\0' !in filename && filename in catalog
    requires catalog[filename].filepath in serverDisk && serverDisk[catalog[filename].filepath] == file
    requires offset == Client.ResumeOffset(compression, resume, disk, savePath)
    requires offset < |file| < UINT64_LIMIT && |Client.BuildRequest(filename, offset, compression)| <= 4095
    requires offset > 0 ==> disk[savePath] == file[..offset]
    requires Steady(segment)
    requires !(compression && serverCompression) ==> Server.AllSent(Chunks(file[offset..]), net)
    requires compression && serverCompression ==> Framable(Chunks(file[offset..]), deflate, 0) && Inverts(deflate, inflate)
    requires compression && serverCompression && !corrected ==> FramesFit(Chunks(file[offset..]), deflate, 0)
    ensures Client.Download(files, compression, filename, savePath, resume, disk, serve, segment, inflate, sha256,
                            corrected)
         == Client.Outcome(Client.ExpectedDigest(files, filename).Some? ==>
                             sha256(Saved(file, offset, compression && serverCompression && !corrected))
                             == Client.ExpectedDigest(files, filename).value,
                           Client.BuildRequest(filename, offset, compression),
                           disk[savePath := Saved(file, offset, compression && serverCompression && !corrected)])
  {
    GetServed(catalog, serverCompression, filename, offset, compression, serverDisk, net, deflate);
    DownloadServed(catalog[filename], serverCompression, serverDisk, net, deflate, files, compression, filename,
                   savePath, resume, disk, serve, segment, inflate, sha256, corrected, file, offset);
  }

  /**
   * When a download leaves exactly the server's file at the save path:
   * always for RAW and for the corrected receive; for COMPRESSED as
   * written, exactly when the file is a whole number of 64 KiB blocks.
   */
  lemma {:induction false} DownloadSavesFile(catalog: map<string, Server.FileInfo>, serverCompression: bool,
                         serverDisk: map<string, seq<byte>>, net: nat -> Server.SendResult,
                         deflate: seq<byte> -> Option<seq<byte>>, files: seq<Client.FileEntry>, compression: bool,
                         filename: string, savePath: string, resume: bool, disk: map<string, seq<byte>>,
                         serve: string -> Client.Response, segment: nat -> nat,
                         inflate: seq<byte> -> Option<seq<byte>>, sha256: seq<byte> -> string, corrected: bool,
                         file: seq<byte>, offset: nat)
    requires forall r :: serve(r) == Deliver(Server.Respond(catalog, serverCompression, r, serverDisk, net, deflate))
    requires IsToken(filename) && '\0' !in filename && filename in catalog
    requires catalog[filename].filepath in serverDisk && serverDisk[catalog[filename].filepath] == file
    requires offset == Client.ResumeOffset(compression, resume, disk, savePath)
    requires offset < |file| < UINT64_LIMIT && |Client.BuildRequest(filename, offset, compression)| <= 4095
    requires offset > 0 ==> disk[savePath] == file[..offset]
    requires Steady(segment)
    requires !(compression && serverCompression) ==> Server.AllSent(Chunks(file[offset..]), net)
    requires compression && serverCompression ==> Framable(Chunks(file[offset..]), deflate, 0) && Inverts(deflate, inflate)
    requires compression && serverCompression && !corrected ==> FramesFit(Chunks(file[offset..]), deflate, 0)
    ensures var saved := Client.Download(files, compression, filename, savePath, resume, disk, serve, segment, inflate,
                                         sha256, corrected).disk;
      && savePath in saved
      && (saved[savePath] == file <==> !(compression && serverCompression) || corrected || |file| % CHUNK_SIZE == 0)
  {
    DownloadEndToEnd(catalog, serverCompression, serverDisk, net, deflate, files, compression, filename, savePath,
                     resume, disk, serve, segment, inflate, sha256, corrected, file, offset);
    var padded := compression && serverCompression && !corrected;
    SavedAt(Client.Download(files, compression, filename, savePath, resume, disk, serve, segment, inflate, sha256,
                            corrected),
            disk, savePath, file, offset, padded);
  }

  /** The save path of an outcome that saved `Saved(file, offset, padded)` holds the file when `SavedWhole` says so. */
  lemma {:induction false} SavedAt(outcome: Client.Outcome, disk: map<string, seq<byte>>, savePath: string,
                                   file: seq<byte>, offset: nat, padded: bool)
    requires offset <= |file| && (padded ==> offset == 0)
    requires outcome.disk == disk[savePath := Saved(file, offset, padded)]
    ensures savePath in outcome.disk
    ensures outcome.disk[savePath] == file <==> !padded || |file| % CHUNK_SIZE == 0
  {
    SavedWhole(file, offset, padded);
  }

  /**
   * Resuming a file that is already complete: the server refuses the
   * offset and the client reports failure, leaving the disk as it was.
   */
  lemma {:induction false} CompleteResumeFails(catalog: map<string, Server.FileInfo>, serverCompression: bool,
                            serverDisk: map<string, seq<byte>>, net: nat -> Server.SendResult,
                            deflate: seq<byte> -> Option<seq<byte>>, files: seq<Client.FileEntry>,
                            filename: string, savePath: string, disk: map<string, seq<byte>>,
                            serve: string -> Client.Response, segment: nat -> nat,
                            inflate: seq<byte> -> Option<seq<byte>>, sha256: seq<byte> -> string, corrected: bool)
    requires forall r :: serve(r) == Deliver(Server.Respond(catalog, serverCompression, r, serverDisk, net, deflate))
    requires IsToken(filename) && '\0' !in filename && filename in catalog
    requires catalog[filename].filepath in serverDisk && savePath in disk
    requires 0 < |disk[savePath]| == |serverDisk[catalog[filename].filepath]| < UINT64_LIMIT
    requires |Client.BuildRequest(filename, |disk[savePath]|, false)| <= 4095
    ensures Client.Download(files, false, filename, savePath, true, disk, serve, segment, inflate, sha256, corrected)
         == Client.Outcome(false, Client.BuildRequest(filename, |disk[savePath]|, false), disk)
  {
    var offset := |disk[savePath]|;
    GetServed(catalog, serverCompression, filename, offset, false, serverDisk, net, deflate);
    ErrorHeaders(Server.INVALID_OFFSET);
  }

  /** `sendFile` refuses every offset of an empty file, 0 included: `offset >= fileSize` holds. */
  lemma {:induction false} EmptyFileRefused(info: Server.FileInfo, offset: nat, compressed: bool,
                                            disk: map<string, seq<byte>>, net: nat -> Server.SendResult,
                                            deflate: seq<byte> -> Option<seq<byte>>)
    requires info.filepath in disk && disk[info.filepath] == []
    ensures Server.GetReply(info, offset, compressed, disk, net, deflate) == Server.Reply(Server.INVALID_OFFSET, [])
  {
  }

  /**
   * A listed file that is empty on the server can never be downloaded:
   * the server answers `ERROR: Invalid offset` and the client fails,
   * having only removed the partial file when compressing.
   */
  lemma {:induction false} EmptyFileFails(catalog: map<string, Server.FileInfo>, serverCompression: bool,
                            serverDisk: map<string, seq<byte>>, net: nat -> Server.SendResult,
                            deflate: seq<byte> -> Option<seq<byte>>, files: seq<Client.FileEntry>, compression: bool,
                            filename: string, savePath: string, resume: bool, disk: map<string, seq<byte>>,
                            serve: string -> Client.Response, segment: nat -> nat,
                            inflate: seq<byte> -> Option<seq<byte>>, sha256: seq<byte> -> string, corrected: bool)
    requires forall r :: serve(r) == Deliver(Server.Respond(catalog, serverCompression, r, serverDisk, net, deflate))
    requires IsToken(filename) && '\0' !in filename && filename in catalog
    requires catalog[filename].filepath in serverDisk && serverDisk[catalog[filename].filepath] == []
    requires Client.ResumeOffset(compression, resume, disk, savePath) < UINT64_LIMIT
    requires |Client.BuildRequest(filename, Client.ResumeOffset(compression, resume, disk, savePath), compression)| <= 4095
    ensures Client.Download(files, compression, filename, savePath, resume, disk, serve, segment, inflate, sha256, corrected)
         == Client.Outcome(false,
                           Client.BuildRequest(filename, Client.ResumeOffset(compression, resume, disk, savePath), compression),
                           if compression then disk - {savePath} else disk)
  {
    var offset := Client.ResumeOffset(compression, resume, disk, savePath);
    GetServed(catalog, serverCompression, filename, offset, compression, serverDisk, net, deflate);
    EmptyFileRefused(catalog[filename], offset, compression && serverCompression, serverDisk, net, deflate);
    ErrorHeaders(Server.INVALID_OFFSET);
  }

  /**
   * `iss >> filename` reads one word: a name with white space is asked
   * for by its first word only.
   */
  lemma {:induction false} SpacedNameCut(first: string, more: string)
    requires IsToken(first)
    ensures Server.ParseGet(first + " " + more).0 == first
  {
    var s := first + " " + more;
    assert s[|first|] == ' ' && first <= s;
    FirstToken(s, first);
  }

  /** `GET my file.txt` asks for `my`. */
  lemma SpacedNameExample()
    ensures Server.ParseGet("my file.txt").0 == "my"
  {
    assert "my file.txt" == "my" + " " + "file.txt";
    SpacedNameCut("my", "file.txt");
  }

  // ---------------------------------------------------------------------------
  // The COMPRESSED receive as written
  // ---------------------------------------------------------------------------

  /**
   * As written, a one-byte file sent COMPRESSED is written as 64 KiB: the
   * byte and 65535 zeros, and the loop ends as if the download were complete.
   */
  lemma {:induction false} CompressedPadsShortFile(b: byte, c: seq<byte>, deflate: seq<byte> -> Option<seq<byte>>,
                                inflate: seq<byte> -> Option<seq<byte>>, segment: nat -> nat)
    requires deflate([b]) == Some(c) && 0 < |c| <= CHUNK_SIZE && inflate(c) == Some([b]) && Steady(segment)
    ensures Client.CompressedLoop(Server.FramedPayload(Chunks([b]), deflate, 0), 0, 0, 1, segment, inflate, false)
         == ([b] + Zeros(CHUNK_SIZE - 1), 0)
  {
    var blocks := Chunks([b]);
    assert blocks == [[b]];
    assert !Server.CompressFails(deflate, blocks[0]) && Server.FramedPayload(blocks, deflate, 1) == [];
    var stream := Server.FramedPayload(blocks, deflate, 0);
    assert stream == Server.Frame(c) + [];
    assert stream[0..4 + |c|] == stream;
    FrameAt(stream, 0, c);
    Client.FrameBodyComplete(stream, 4, |c|, CHUNK_SIZE, segment, 1, 0);
    var k' := Client.FrameBody(stream, 4, |c|, CHUNK_SIZE, segment, 1, 0).1;
    assert Client.NextFrame(stream, 0, 0, segment, inflate, false) == Some(([b] + Zeros(CHUNK_SIZE - 1), 4 + |c|, k'));
    var padded := [b] + Zeros(CHUNK_SIZE - 1);
    assert Client.SatSub(1, |padded|) == 0;
    assert Client.CompressedLoop(stream, 4 + |c|, k', 0, segment, inflate, false) == ([], 0);
    assert padded + [] == padded;
  }

  /**
   * As written, a frame longer than 64 KiB (a block `compress2` expands)
   * cannot be read into the 64 KiB receive buffer: the loop stops at that
   * frame with the whole remainder still to receive.
   */
  lemma {:induction false} OversizeFrameAborts(stream: seq<byte>, pos: nat, k: nat, c: seq<byte>, toReceive: nat, segment: nat -> nat,
                            inflate: seq<byte> -> Option<seq<byte>>)
    requires pos + 4 + |c| <= |stream| && stream[pos..pos + 4 + |c|] == Server.Frame(c)
    requires CHUNK_SIZE < |c| < UINT32_LIMIT && toReceive > 0
    ensures Client.CompressedLoop(stream, pos, k, toReceive, segment, inflate, false) == ([], toReceive)
  {
    FrameAt(stream, pos, c);
  }
}
