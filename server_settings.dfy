/**
 * `ServerConfig` (server.cpp:42-77): the server's port, compression
 * switch, connection limit and shared folder, read from and written to
 * `server_config.txt`.
 */
module ServerSettings {
  import opened Wrappers
  import opened Text
  import opened ConfigFile

  /** The four settings as a value. */
  datatype Settings = Settings(port: int, compression: bool, maxConnections: int, folder: string)

  predicate WellFormed(s: Settings) {
    INT_MIN <= s.port <= INT_MAX && INT_MIN <= s.maxConnections <= INT_MAX
  }

  /**
   * One line of `load`: `None` when `std::stoi` throws on a port or
   * connection-limit value (the exception leaves `load`, and the server's
   * constructor, at once).
   */
  function ApplyLine(s: Settings, line: string): Option<Settings>
  {
    match SplitEntry(line)
    case None => Some(s)
    case Some((key, value)) =>
      if key == "port" then
        (match Stoi(value)
         case None => None
         case Some(p) => Some(s.(port := p)))
      else if key == "compression" then Some(s.(compression := ParseFlag(value)))
      else if key == "max_connections" then
        (match Stoi(value)
         case None => None
         case Some(m) => Some(s.(maxConnections := m)))
      else if key == "shared_folder" then Some(s.(folder := value))
      else Some(s)
  }

  /**
   * The settings after `load` has read `lines`, and whether it finished
   * without an exception; on an exception, the settings as they stood.
   */
  function LoadLines(s: Settings, lines: seq<string>): (Settings, bool)
    decreases |lines|
  {
    if lines == [] then (s, true)
    else match ApplyLine(s, lines[0])
      case None => (s, false)
      case Some(s') => LoadLines(s', lines[1..])
  }

  /** The text `save` writes: each line followed by "\n". */
  function Serialize(s: Settings): string
  {
    JoinLines(SavedLines(s))
  }

  function SavedLines(s: Settings): seq<string>
  {
    ["# Server Configuration",
     "port=" + IntToString(s.port),
     "compression=" + FlagText(s.compression),
     "max_connections=" + IntToString(s.maxConnections),
     "shared_folder=" + s.folder]
  }

  /**
   * Reading back what `save` wrote restores every setting, whatever the
   * settings were before, as long as no string holds a line break.
   */
  lemma {:induction false} LoadOfSave(s: Settings, before: Settings)
    requires WellFormed(s)
    requires '\n' !in s.folder
    ensures LoadLines(before, Lines(Serialize(s))) == (s, true)
  {
    SavedLinesClean(s);
    LinesOfJoin(SavedLines(s));
    LoadSaved(s, before);
  }

  /** No line `save` writes holds a line break of its own. */
  lemma SavedLinesClean(s: Settings)
    requires '\n' !in s.folder
    ensures forall k :: 0 <= k < |SavedLines(s)| ==> '\n' !in SavedLines(s)[k]
  {
    var ls := SavedLines(s);
    SavedKeys();
    IntToStringDigits(s.port);
    IntToStringDigits(s.maxConnections);
    assert '\n' !in ls[1] && '\n' !in ls[2] && '\n' !in ls[3] && '\n' !in ls[4];
  }

  /** The fixed parts of the saved lines. */
  lemma SavedKeys()
    ensures '\n' !in "# Server Configuration" && '\n' !in "port=" && '\n' !in "compression="
    ensures '\n' !in "max_connections=" && '\n' !in "shared_folder=" && '\n' !in "true" && '\n' !in "false"
  {
  }

  /** `load` applied to the lines `save` writes. */
  lemma LoadSaved(s: Settings, before: Settings)
    requires WellFormed(s)
    ensures LoadLines(before, SavedLines(s)) == (s, true)
  {
    var ls := SavedLines(s);
    var s1 := before.(port := s.port);
    var s2 := s1.(compression := s.compression);
    var s3 := s2.(maxConnections := s.maxConnections);
    assert ApplyLine(before, ls[0]) == Some(before);
    LoadStep(before, ls, before);
    ApplyPort(before, s.port);
    LoadStep(before, ls[1..], s1);
    ApplyCompression(s1, s.compression);
    LoadStep(s1, ls[2..], s2);
    ApplyLimit(s2, s.maxConnections);
    LoadStep(s2, ls[3..], s3);
    ApplyFolder(s3, s.folder);
    LoadStep(s3, ls[4..], s);
    assert ls[4..][1..] == [];
  }

  /** Each line `save` writes sets the one field it names. */
  lemma ApplyPort(b: Settings, p: int)
    requires INT_MIN <= p <= INT_MAX
    ensures ApplyLine(b, "port=" + IntToString(p)) == Some(b.(port := p))
  {
    assert "port=" + IntToString(p) == "port" + "=" + IntToString(p);
    SplitEntryOf("port", IntToString(p));
    StoiOfString(p);
  }

  lemma ApplyCompression(b: Settings, f: bool)
    ensures ApplyLine(b, "compression=" + FlagText(f)) == Some(b.(compression := f))
  {
    assert "compression=" + FlagText(f) == "compression" + "=" + FlagText(f);
    SplitEntryOf("compression", FlagText(f));
  }

  lemma ApplyLimit(b: Settings, m: int)
    requires INT_MIN <= m <= INT_MAX
    ensures ApplyLine(b, "max_connections=" + IntToString(m)) == Some(b.(maxConnections := m))
  {
    assert "max_connections=" + IntToString(m) == "max_connections" + "=" + IntToString(m);
    SplitEntryOf("max_connections", IntToString(m));
    StoiOfString(m);
  }

  lemma ApplyFolder(b: Settings, v: string)
    ensures ApplyLine(b, "shared_folder=" + v) == Some(b.(folder := v))
  {
    assert "shared_folder=" + v == "shared_folder" + "=" + v;
    SplitEntryOf("shared_folder", v);
  }

  /** `load` reads one line and carries on with the rest. */
  lemma LoadStep(s: Settings, lines: seq<string>, s': Settings)
    requires lines != [] && ApplyLine(s, lines[0]) == Some(s')
    ensures LoadLines(s, lines) == LoadLines(s', lines[1..])
  {
  }

  class ServerConfig {
    var port: int
    var enableCompression: bool
    var maxConnections: int
    var sharedFolder: string

    ghost predicate Valid()
      reads this
    {
      WellFormed(Current())
    }

    function Current(): Settings
      reads this
    {
      Settings(port, enableCompression, maxConnections, sharedFolder)
    }

    /** The defaults of server.cpp:43-46 (`DEFAULT_PORT`, `MAX_CONNECTIONS`). */
    constructor ()
      ensures Valid()
      ensures Current() == Settings(8080, true, 50, "")
    {
      port := 8080;
      enableCompression := true;
      maxConnections := 50;
      sharedFolder := "";
    }

    /**
     * `load`: `file` is the content of the configuration file, `None` when
     * it cannot be opened (then nothing changes). `ok` is false when
     * `std::stoi` threw.
     */
    method Load(file: Option<string>) returns (ok: bool)
      requires Valid()
      modifies this
      ensures Valid()
      ensures file.None? ==> ok && Current() == old(Current())
      ensures file.Some? ==> (Current(), ok) == LoadLines(old(Current()), Lines(file.value))
    {
      ok := true;
      if file.None? {
        return;
      }
      var lines := Lines(file.value);
      var i := 0;
      while i < |lines|
        invariant 0 <= i <= |lines|
        invariant Valid()
        invariant LoadLines(old(Current()), lines) == LoadLines(Current(), lines[i..])
      {
        assert lines[i..][1..] == lines[i + 1..];
        var entry := SplitEntry(lines[i]);
        if entry.Some? {
          var (key, value) := entry.value;
          if key == "port" {
            var p := Stoi(value);
            if p.None? {
              ok := false;
              return;
            }
            port := p.value;
          } else if key == "compression" {
            enableCompression := ParseFlag(value);
          } else if key == "max_connections" {
            var m := Stoi(value);
            if m.None? {
              ok := false;
              return;
            }
            maxConnections := m.value;
          } else if key == "shared_folder" {
            sharedFolder := value;
          }
        }
        i := i + 1;
      }
    }

    /** `save`: the text written to the configuration file. */
    method Save() returns (text: string)
      requires Valid()
      ensures text == Serialize(Current())
    {
      var lines := ["# Server Configuration",
                    "port=" + IntToString(port),
                    "compression=" + FlagText(enableCompression),
                    "max_connections=" + IntToString(maxConnections),
                    "shared_folder=" + sharedFolder];
      text := JoinLines(lines);
    }
  }
}
