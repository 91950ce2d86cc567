/**
 * `ClientConfig` (client.cpp:37-72): the client's remembered server,
 * port, compression flag and download folder, read from and written to
 * `client_config.txt`.
 */
module ClientSettings {
  import opened Wrappers
  import opened Text
  import opened ConfigFile

  /** The four settings as a value. */
  datatype Settings = Settings(server: string, port: int, compression: bool, folder: string)

  predicate WellFormed(s: Settings) {
    INT_MIN <= s.port <= INT_MAX
  }

  /**
   * One line of `load`: `None` when `std::stoi` throws on the port value
   * (the exception leaves `load`, and the client's constructor, at once).
   */
  function ApplyLine(s: Settings, line: string): Option<Settings>
  {
    match SplitEntry(line)
    case None => Some(s)
    case Some((key, value)) =>
      if key == "server" then Some(s.(server := value))
      else if key == "port" then
        (match Stoi(value)
         case None => None
         case Some(p) => Some(s.(port := p)))
      else if key == "compression" then Some(s.(compression := ParseFlag(value)))
      else if key == "download_folder" then Some(s.(folder := value))
      else Some(s)
  }

  /**
   * The settings after `load` has read `lines`, and whether it finished
   * without an exception; on an exception, the settings as they stood.
   */
  function LoadLines(s: Settings, lines: seq<string>): (Settings, bool)
    decreases |lines|
  {
    if lines == [] then (s, true)
    else match ApplyLine(s, lines[0])
      case None => (s, false)
      case Some(s') => LoadLines(s', lines[1..])
  }

  /** The text `save` writes: each line followed by "\n". */
  function Serialize(s: Settings): string
  {
    JoinLines(SavedLines(s))
  }

  function SavedLines(s: Settings): seq<string>
  {
    ["# Client Configuration",
     "server=" + s.server,
     "port=" + IntToString(s.port),
     "compression=" + FlagText(s.compression),
     "download_folder=" + s.folder]
  }

  /**
   * Reading back what `save` wrote restores every setting, whatever the
   * settings were before, as long as no string holds a line break.
   */
  lemma {:induction false} LoadOfSave(s: Settings, before: Settings)
    requires WellFormed(s)
    requires '\n' !in s.server && '\n' !in s.folder
    ensures LoadLines(before, Lines(Serialize(s))) == (s, true)
  {
    SavedLinesClean(s);
    LinesOfJoin(SavedLines(s));
    LoadSaved(s, before);
  }

  /** No line `save` writes holds a line break of its own. */
  lemma SavedLinesClean(s: Settings)
    requires '\n' !in s.server && '\n' !in s.folder
    ensures forall k :: 0 <= k < |SavedLines(s)| ==> '\n' !in SavedLines(s)[k]
  {
    var ls := SavedLines(s);
    SavedKeys();
    IntToStringDigits(s.port);
    assert '\n' !in ls[1] && '\n' !in ls[2] && '\n' !in ls[3] && '\n' !in ls[4];
  }

  /** The fixed parts of the saved lines. */
  lemma SavedKeys()
    ensures '\n' !in "# Client Configuration" && '\n' !in "server=" && '\n' !in "port="
    ensures '\n' !in "compression=" && '\n' !in "download_folder=" && '\n' !in "true" && '\n' !in "false"
  {
  }

  /** `load` applied to the lines `save` writes. */
  lemma LoadSaved(s: Settings, before: Settings)
    requires WellFormed(s)
    ensures LoadLines(before, SavedLines(s)) == (s, true)
  {
    var ls := SavedLines(s);
    var s1 := before.(server := s.server);
    var s2 := s1.(port := s.port);
    var s3 := s2.(compression := s.compression);
    assert ApplyLine(before, ls[0]) == Some(before);
    LoadStep(before, ls, before);
    ApplyServer(before, s.server);
    LoadStep(before, ls[1..], s1);
    ApplyPort(s1, s.port);
    LoadStep(s1, ls[2..], s2);
    ApplyCompression(s2, s.compression);
    LoadStep(s2, ls[3..], s3);
    ApplyFolder(s3, s.folder);
    LoadStep(s3, ls[4..], s);
    assert ls[4..][1..] == [];
  }

  /** Each line `save` writes sets the one field it names. */
  lemma ApplyServer(b: Settings, v: string)
    ensures ApplyLine(b, "server=" + v) == Some(b.(server := v))
  {
    assert "server=" + v == "server" + "=" + v;
    SplitEntryOf("server", v);
  }

  lemma ApplyPort(b: Settings, p: int)
    requires INT_MIN <= p <= INT_MAX
    ensures ApplyLine(b, "port=" + IntToString(p)) == Some(b.(port := p))
  {
    assert "port=" + IntToString(p) == "port" + "=" + IntToString(p);
    SplitEntryOf("port", IntToString(p));
    StoiOfString(p);
  }

  lemma ApplyCompression(b: Settings, f: bool)
    ensures ApplyLine(b, "compression=" + FlagText(f)) == Some(b.(compression := f))
  {
    assert "compression=" + FlagText(f) == "compression" + "=" + FlagText(f);
    SplitEntryOf("compression", FlagText(f));
  }

  lemma ApplyFolder(b: Settings, v: string)
    ensures ApplyLine(b, "download_folder=" + v) == Some(b.(folder := v))
  {
    assert "download_folder=" + v == "download_folder" + "=" + v;
    SplitEntryOf("download_folder", v);
  }

  /** `load` reads one line and carries on with the rest. */
  lemma LoadStep(s: Settings, lines: seq<string>, s': Settings)
    requires lines != [] && ApplyLine(s, lines[0]) == Some(s')
    ensures LoadLines(s, lines) == LoadLines(s', lines[1..])
  {
  }

  class ClientConfig {
    var lastServer: string
    var lastPort: int
    var enableCompression: bool
    var downloadFolder: string

    ghost predicate Valid()
      reads this
    {
      WellFormed(Current())
    }

    function Current(): Settings
      reads this
    {
      Settings(lastServer, lastPort, enableCompression, downloadFolder)
    }

    /** The defaults of client.cpp:38-41. */
    constructor ()
      ensures Valid()
      ensures Current() == Settings("", 8080, true, ".")
    {
      lastServer := "";
      lastPort := 8080;
      enableCompression := true;
      downloadFolder := ".";
    }

    /**
     * `load`: `file` is the content of the configuration file, `None` when
     * it cannot be opened (then nothing changes). `ok` is false when
     * `std::stoi` threw.
     */
    method Load(file: Option<string>) returns (ok: bool)
      requires Valid()
      modifies this
      ensures Valid()
      ensures file.None? ==> ok && Current() == old(Current())
      ensures file.Some? ==> (Current(), ok) == LoadLines(old(Current()), Lines(file.value))
    {
      ok := true;
      if file.None? {
        return;
      }
      var lines := Lines(file.value);
      var i := 0;
      while i < |lines|
        invariant 0 <= i <= |lines|
        invariant Valid()
        invariant LoadLines(old(Current()), lines) == LoadLines(Current(), lines[i..])
      {
        assert lines[i..][1..] == lines[i + 1..];
        var entry := SplitEntry(lines[i]);
        if entry.Some? {
          var (key, value) := entry.value;
          if key == "server" {
            lastServer := value;
          } else if key == "port" {
            var p := Stoi(value);
            if p.None? {
              ok := false;
              return;
            }
            lastPort := p.value;
          } else if key == "compression" {
            enableCompression := ParseFlag(value);
          } else if key == "download_folder" {
            downloadFolder := value;
          }
        }
        i := i + 1;
      }
    }

    /** `save`: the text written to the configuration file. */
    method Save() returns (text: string)
      requires Valid()
      ensures text == Serialize(Current())
    {
      var lines := ["# Client Configuration",
                    "server=" + lastServer,
                    "port=" + IntToString(lastPort),
                    "compression=" + FlagText(enableCompression),
                    "download_folder=" + downloadFolder];
      text := JoinLines(lines);
    }
  }
}
