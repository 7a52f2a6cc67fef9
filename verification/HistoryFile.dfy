/**
 A history backed by a shared file (`FileHistory` in `wq-rl/src/history.rs`).  A file is its text
 and a modification stamp; every write moves the stamp, and taking the lock makes each `save`,
 `append` and `load` one atomic step.
 */
module HistoryFile {
  import opened Wrappers
  import opened HistoryText
  import M = MemHistory

  datatype File = File(text: string, mtime: nat)

  type Files = map<string, File>

  /** The path last loaded or written, its stamp then, and the number of entries in it then. */
  datatype PathInfo = PathInfo(path: string, mtime: nat, size: nat)

  datatype Hist = Hist(mem: M.Mem, newEntries: nat, pathInfo: Option<PathInfo>) {
    function Add(line: string): Hist {
      if mem.Ignores(line) then this
      else
        var next := mem.Add(line);
        Hist(next, Min(newEntries + 1, |next.entries|), pathInfo)
    }

    function SetMaxLen(len: nat): Hist {
      Hist(mem.SetMaxLen(len), Min(newEntries, len), pathInfo)
    }

    function FirstNew(): (k: nat)
      ensures k <= |mem.entries|
    {
      if newEntries <= |mem.entries| then |mem.entries| - newEntries else 0
    }

    /** The entries not written yet. */
    function Unsaved(): seq<string> {
      mem.entries[FirstNew()..]
    }

    predicate CanJustAppend(path: string, file: File) {
      && pathInfo.Some?
      && pathInfo.value.path == path
      && pathInfo.value.mtime == file.mtime
      && mem.cfg.maxLen > pathInfo.value.size
      && mem.cfg.maxLen >= pathInfo.value.size + newEntries
    }
  }

  function Min(a: nat, b: nat): nat {
    if a <= b then a else b
  }

  function Fresh(cfg: M.Config): Hist {
    Hist(M.Mem([], cfg), 0, None)
  }

  // ---- reading a file into a history ----

  /** Feed the lines after the first to a history; the flag says that no line was refused. */
  function LoadLines(mem: M.Mem, v2: bool, lines: seq<string>, appendable: bool): (M.Mem, bool)
    decreases |lines|
  {
    if lines == [] then (mem, appendable)
    else if lines[0] == "" then LoadLines(mem, v2, lines[1..], appendable)
    else
      var line := if v2 then DecodeLine(lines[0]) else lines[0];
      LoadLines(mem.Add(line), v2, lines[1..], appendable && !mem.Ignores(line))
  }

  function LoadText(mem: M.Mem, text: string): (M.Mem, bool) {
    var lines := Lines(text);
    if lines == [] then (mem, false)
    else if lines[0] == VERSION_LINE then LoadLines(mem, true, lines[1..], true)
    else LoadLines(mem.Add(lines[0]), false, lines[1..], false)
  }

  /** What a fresh history with the settings of `cfg` holds after loading `text`. */
  function Decode(cfg: M.Config, text: string): seq<string> {
    LoadText(M.Mem([], cfg), text).0.entries
  }

  // ---- the three file operations as functions ----

  function Touched(files: Files, path: string): nat {
    if path in files then files[path].mtime + 1 else 0
  }

  function Write(files: Files, path: string, text: string): Files {
    files[path := File(text, Touched(files, path))]
  }

  function Saved(h: Hist, files: Files, path: string): (Hist, Files) {
    if h.mem.entries == [] || h.newEntries == 0 then (h, files)
    else
      var next := Write(files, path, Encode(h.mem.entries));
      (Hist(h.mem, 0, Some(PathInfo(path, next[path].mtime, |h.mem.entries|))), next)
  }

  /** The cheap route: write the new entries behind the file's text. */
  function FastAppended(h: Hist, files: Files, path: string): (Hist, Files)
    requires path in files && h.pathInfo.Some?
  {
    var next := Write(files, path, files[path].text + Body(h.Unsaved()));
    (Hist(h.mem, 0, Some(PathInfo(path, next[path].mtime, h.pathInfo.value.size + h.newEntries))), next)
  }

  /** The full route: read the file, add the new entries under the cap, write everything back. */
  function Merged(h: Hist, files: Files, path: string): (Hist, Files)
    requires path in files
  {
    var other := LoadText(M.Mem([], h.mem.cfg), files[path].text).0.AddAll(h.Unsaved());
    var next := Write(files, path, Encode(other.entries));
    (Hist(h.mem, 0, Some(PathInfo(path, next[path].mtime, |other.entries|))), next)
  }

  function Appended(h: Hist, files: Files, path: string): (Hist, Files) {
    if h.mem.entries == [] || h.newEntries == 0 then (h, files)
    else if path !in files || h.newEntries == h.mem.cfg.maxLen then Saved(h, files, path)
    else if h.CanJustAppend(path, files[path]) then FastAppended(h, files, path)
    else Merged(h, files, path)
  }

  /** Loading a file of another format forgets the path, so that the next append rewrites it. */
  function Loaded(h: Hist, files: Files, path: string): Hist
    requires path in files
  {
    var (mem, appendable) := LoadText(h.mem, files[path].text);
    var grown := if |mem.entries| >= |h.mem.entries| then |mem.entries| - |h.mem.entries| else 0;
    Hist(mem, 0, if appendable then Some(PathInfo(path, files[path].mtime, grown)) else None)
  }

  // ---- the class ----

  class Disk {
    var files: Files

    constructor ()
      ensures files == map[]
    {
      files := map[];
    }

    method WriteFile(path: string, text: string)
      modifies this
      ensures files == Write(old(files), path, text)
    {
      files := files[path := File(text, if path in files then files[path].mtime + 1 else 0)];
    }
  }

  class FileHistory {
    const mem: M.History
    var newEntries: nat
    var pathInfo: Option<PathInfo>

    function State(): Hist
      reads this, mem
    {
      Hist(mem.State(), newEntries, pathInfo)
    }

    constructor (maxLen: nat, ignoreSpace: bool, ignoreDups: bool)
      ensures fresh(mem)
      ensures State() == Fresh(M.Config(maxLen, ignoreSpace, ignoreDups))
    {
      mem := new M.History(maxLen, ignoreSpace, ignoreDups);
      newEntries := 0;
      pathInfo := None;
    }

    method Add(line: string) returns (added: bool)
      modifies this`newEntries, mem
      ensures State() == old(State().Add(line))
      ensures added == !old(mem.State().Ignores(line))
    {
      added := mem.Add(line);
      if added {
        newEntries := Min(newEntries + 1, |mem.entries|);
      }
    }

    method SetMaxLen(len: nat)
      modifies this`newEntries, mem
      ensures State() == old(State().SetMaxLen(len))
    {
      mem.SetMaxLen(len);
      newEntries := Min(newEntries, len);
    }

    /** The bytes `save_to` writes: the new entries only, or a version line and every entry. */
    method SaveTo(append: bool) returns (out: string)
      ensures out == if append then Body(State().Unsaved()) else Encode(mem.entries)
    {
      out := "";
      var k: nat := 0;
      if append {
        k := if newEntries <= |mem.entries| then |mem.entries| - newEntries else 0;
      } else {
        out := VERSION_LINE + "\n";
      }
      ghost var all := out + Body(mem.entries[k..]);
      WholeText(mem.entries, k);
      while k < |mem.entries|
        invariant k <= |mem.entries|
        invariant out + Body(mem.entries[k..]) == all
      {
        var line := WriteEntry(mem.entries[k]);
        BodyFrom(out, mem.entries, k);
        out := out + line;
        k := k + 1;
      }
      assert mem.entries[k..] == [] && out + "" == out;
    }

    method LoadFrom(text: string) returns (appendable: bool)
      modifies this`newEntries, mem
      ensures State() == Hist(old(LoadText(mem.State(), text).0), 0, pathInfo)
      ensures appendable == old(LoadText(mem.State(), text).1)
    {
      var lines := Lines(text);
      var v2 := false;
      ghost var before := mem.State();
      if lines != [] {
        if lines[0] == VERSION_LINE {
          v2 := true;
        } else {
          var _ := Add(lines[0]);
        }
      }
      appendable := v2;
      var k := 1;
      while k < |lines|
        invariant 1 <= k
        invariant lines != [] ==> k <= |lines|
        invariant lines != [] ==> LoadLines(mem.State(), v2, lines[k..], appendable) == LoadText(before, text)
        invariant lines == [] ==> mem.State() == before && !appendable
      {
        var line := lines[k];
        assert lines[k..][1..] == lines[k + 1..];
        if line != "" {
          if v2 {
            line := ReadEntry(line);
          }
          var added := Add(line);
          appendable := appendable && added;
        }
        k := k + 1;
      }
      newEntries := 0;
    }

    method CanJustAppend(path: string, file: File) returns (ok: bool)
      ensures ok == State().CanJustAppend(path, file)
    {
      if pathInfo.None? {
        return false;
      }
      if pathInfo.value.path != path {
        return false;
      }
      return !(|| pathInfo.value.mtime != file.mtime
               || mem.maxLen <= pathInfo.value.size
               || mem.maxLen < pathInfo.value.size + newEntries);
    }

    method Save(disk: Disk, path: string)
      modifies this`newEntries, this`pathInfo, disk
      ensures (State(), disk.files) == old(Saved(State(), disk.files, path))
    {
      if mem.entries == [] || newEntries == 0 {
        return;
      }
      var text := SaveTo(false);
      disk.WriteFile(path, text);
      newEntries := 0;
      pathInfo := Some(PathInfo(path, disk.files[path].mtime, |mem.entries|));
    }

    /** The full route's work in memory: a second history reads the file and takes the new entries. */
    method MergeWith(file: File) returns (text: string, size: nat)
      ensures var other := LoadText(M.Mem([], mem.State().cfg), file.text).0.AddAll(State().Unsaved());
        text == Encode(other.entries) && size == |other.entries|
    {
      var other: FileHistory := new FileHistory(mem.maxLen, mem.ignoreSpace, mem.ignoreDups);
      var _ := other.LoadFrom(file.text);
      var k: nat := if newEntries <= |mem.entries| then |mem.entries| - newEntries else 0;
      ghost var loaded: M.Mem := other.mem.State();
      ghost var unsaved: seq<string> := State().Unsaved();
      assert unsaved == mem.entries[k..];
      while k < |mem.entries|
        invariant k <= |mem.entries|
        invariant other.mem.State().AddAll(mem.entries[k..]) == loaded.AddAll(unsaved)
        modifies other`newEntries, other.mem
      {
        assert mem.entries[k..][1..] == mem.entries[k + 1..];
        var _ := other.Add(mem.entries[k]);
        k := k + 1;
      }
      text := other.SaveTo(false);
      size := |other.mem.entries|;
    }

    method Append(disk: Disk, path: string)
      modifies this`newEntries, this`pathInfo, disk
      ensures (State(), disk.files) == old(Appended(State(), disk.files, path))
    {
      if mem.entries == [] || newEntries == 0 {
        return;
      }
      if path !in disk.files || newEntries == mem.maxLen {
        Save(disk, path);
        return;
      }
      var file := disk.files[path];
      ghost var before, files := State(), disk.files;
      var cheap := CanJustAppend(path, file);
      if cheap {
        var tail := SaveTo(true);
        disk.WriteFile(path, file.text + tail);
        var size := pathInfo.value.size + newEntries;
        newEntries := 0;
        pathInfo := Some(PathInfo(path, disk.files[path].mtime, size));
        assert (State(), disk.files) == FastAppended(before, files, path);
        return;
      }
      var text, size := MergeWith(file);
      disk.WriteFile(path, text);
      pathInfo := Some(PathInfo(path, disk.files[path].mtime, size));
      newEntries := 0;
      assert (State(), disk.files) == Merged(before, files, path);
    }

    method Load(disk: Disk, path: string) returns (r: Result<(), string>)
      modifies this, mem
      ensures path !in disk.files ==> r.Err? && State() == old(State())
      ensures path in disk.files ==> r.Ok? && State() == old(Loaded(State(), disk.files, path))
    {
      if path !in disk.files {
        return Err("no such file");
      }
      var len := |mem.entries|;
      var appendable := LoadFrom(disk.files[path].text);
      if appendable {
        var grown := if |mem.entries| >= len then |mem.entries| - len else 0;
        pathInfo := Some(PathInfo(path, disk.files[path].mtime, grown));
      } else {
        pathInfo := None;
      }
      return Ok(());
    }
  }

  /** What is written of the entries from `first` on. */
  lemma WholeText(entries: seq<string>, first: nat)
    requires first <= |entries|
    ensures "" + Body(entries[first..]) == Body(entries[first..])
    ensures entries[0..] == entries
  {
  }

  lemma BodyFrom(out: string, entries: seq<string>, k: nat)
    requires k < |entries|
    ensures out + Body(entries[k..]) == (out + (Escape(entries[k]) + "\n")) + Body(entries[k + 1..])
  {
    var line := Escape(entries[k]) + "\n";
    assert entries[k..][1..] == entries[k + 1..];
    assert out + (line + Body(entries[k + 1..])) == out + line + Body(entries[k + 1..]);
  }
}
