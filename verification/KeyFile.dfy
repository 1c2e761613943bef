/** Storing and loading the API key (src/pfsense_mcp/config.py). */
module KeyFiles {
  import opened Options

  type Byte = b: int | 0 <= b < 256 witness 0

  /** A Python `str`, by code point. */
  type Code = c: int | 0 <= c < 0x110000 witness 0

  const LINE_MAX: nat := 4096
  const FILE_MAX: nat := 16 * 1024
  const NEWLINE: Byte := 10

  // ------------------------------------------------------------------- the disk

  datatype File = File(bytes: seq<Byte>, regular: bool, mine: bool, private: bool)

  /** Names of the key's directory, and files by identity (device and inode). */
  datatype Disk = Disk(names: map<string, nat>, files: map<nat, File>)

  function Create(d: Disk, name: string, inode: nat): Disk {
    Disk(d.names[name := inode], d.files[inode := File([], true, true, true)])
  }

  /** Writing through the descriptor of `inode`. */
  function Append(d: Disk, inode: nat, more: seq<Byte>): Disk {
    if inode in d.files then
      var file := d.files[inode];
      d.(files := d.files[inode := file.(bytes := file.bytes + more)])
    else d
  }

  function Unlink(d: Disk, name: string): Disk {
    d.(names := d.names - {name})
  }

  // ----------------------------------------------------------------------- text

  /** What the code takes from Python's Unicode tables, for code points beyond
      ASCII, and its UTF-8 codec. */
  datatype Unicode = Unicode(
    space: Code -> bool,
    formatting: Code -> bool,
    encode: seq<Code> -> Option<seq<Byte>>,
    decode: seq<Byte> -> Option<seq<Code>>)

  predicate Ascii(s: seq<int>) {
    forall i :: 0 <= i < |s| ==> s[i] < 128
  }

  /** UTF-8 leaves ASCII text as it is, in both directions. */
  ghost predicate AsciiTransparent(u: Unicode) {
    && (forall s: seq<Code> :: Ascii(s) ==> u.encode(s) == Some(s))
    && (forall b: seq<Byte> :: Ascii(b) ==> u.decode(b) == Some(b))
  }

  predicate Space(c: Code, u: Unicode) {
    9 <= c <= 13 || 28 <= c <= 32 || (c >= 128 && u.space(c))
  }

  predicate Control(c: Code, u: Unicode) {
    c < 32 || c == 127 || (c >= 128 && u.formatting(c))
  }

  function StripLeft(s: seq<Code>, u: Unicode): seq<Code> {
    if s != [] && Space(s[0], u) then StripLeft(s[1..], u) else s
  }

  function StripRight(s: seq<Code>, u: Unicode): seq<Code> {
    if s != [] && Space(s[|s| - 1], u) then StripRight(s[..|s| - 1], u) else s
  }

  function Strip(s: seq<Code>, u: Unicode): seq<Code> {
    StripRight(StripLeft(s, u), u)
  }

  predicate Acceptable(key: seq<Code>, u: Unicode) {
    key != [] && Strip(key, u) == key && forall i :: 0 <= i < |key| ==> !Control(key[i], u)
  }

  // -------------------------------------------------------------------- loading

  /** Which of the system calls of a load fail, and the most its `read` returns. */
  datatype LoadFaults = LoadFaults(open: bool, fstat: bool, read: bool, readMost: nat, close: bool)

  const SOUND_LOAD: LoadFaults := LoadFaults(false, false, false, LINE_MAX + 1, false)

  function FirstLine(bytes: seq<Byte>): (line: seq<Byte>)
    ensures NEWLINE !in line
  {
    if bytes == [] || bytes[0] == NEWLINE then [] else [bytes[0]] + FirstLine(bytes[1..])
  }

  function Min(a: nat, b: nat): nat {
    if a < b then a else b
  }

  predicate SafeFile(file: File) {
    file.regular && file.mine && file.private && |file.bytes| <= FILE_MAX
  }

  function Load(d: Disk, name: string, u: Unicode, f: LoadFaults): Option<seq<Code>> {
    if f.open || name !in d.names || d.names[name] !in d.files then None
    else
      var file := d.files[d.names[name]];
      if f.fstat || !SafeFile(file) || f.read || f.close then None
      else KeyOf(FirstLine(file.bytes[..Min(|file.bytes|, Min(LINE_MAX + 1, f.readMost))]), u)
  }

  function KeyOf(line: seq<Byte>, u: Unicode): Option<seq<Code>> {
    if |line| > LINE_MAX || exists i :: 0 <= i < |line| && (line[i] < 32 || line[i] == 127) then None
    else
      match u.decode(line)
      case None => None
      case Some(text) =>
        var key := Strip(text, u);
        if key == [] then None else Some(key)
  }

  // -------------------------------------------------------------------- storing

  /** One `write` call: it fails, or reports how much it took. */
  datatype Write = Fails | Takes(n: int)

  /** Which calls fail. The writes happen in order; one past the end of the list
      takes everything. */
  datatype Faults = Faults(
    openParent: bool, openFile: bool, fchmod: bool, fstat: bool, unsafe: bool,
    writes: seq<Write>,
    fsync: bool, close: bool, load: LoadFaults, fsyncParent: bool,
    stat: bool, unlink: bool)

  /** What other processes do to the disk before the verifying load, and in the
      cleanup before `stat` and between `stat` and `unlink`. */
  datatype Others = Others(beforeLoad: Disk -> Disk, beforeStat: Disk -> Disk, beforeUnlink: Disk -> Disk)

  datatype Setting = Setting(u: Unicode, faults: Faults, others: Others, inode: nat)

  datatype Outcome = Stored | Refused | Crashed

  /** One change the tool itself made to the disk. */
  datatype Change = Change(before: Disk, after: Disk)

  datatype Result = Result(outcome: Outcome, disk: Disk, changes: seq<Change>, unlinked: Option<nat>)

  function Writing(d: Disk, inode: nat, value: seq<Byte>, writes: seq<Write>): (r: (Disk, bool))
    decreases |value|
  {
    if value == [] then (d, true)
    else if writes == [] then (Append(d, inode, value), true)
    else if writes[0].Fails? || writes[0].n <= 0 then (d, false)
    else
      var n := Min(writes[0].n, |value|);
      Writing(Append(d, inode, value[..n]), inode, value[n..], writes[1..])
  }

  /** Unlinks the name if it is still the file the tool created. */
  function Cleanup(outcome: Outcome, d: Disk, name: string, s: Setting, changes: seq<Change>): Result {
    var seen := s.others.beforeStat(d);
    if s.faults.stat || name !in seen.names || seen.names[name] != s.inode then Result(outcome, seen, changes, None)
    else
      var now := s.others.beforeUnlink(seen);
      if s.faults.unlink || name !in now.names then Result(outcome, now, changes, None)
      else
        var gone := Unlink(now, name);
        Result(outcome, gone, changes + [Change(now, gone)], Some(now.names[name]))
  }

  function Store(key: seq<Code>, name: string, d: Disk, s: Setting): Result {
    if !Acceptable(key, s.u) then Result(Refused, d, [], None)
    else
      match s.u.encode(key)
      case None => Result(Refused, d, [], None)
      case Some(encoded) =>
        if |encoded| > LINE_MAX || s.faults.openParent || name in d.names || s.faults.openFile
        then Result(Refused, d, [], None)
        else
          Fill(key, encoded, name, d, Create(d, name, s.inode), s)
  }

  /** From the created file on. */
  function Fill(key: seq<Code>, encoded: seq<Byte>, name: string, d: Disk, created: Disk, s: Setting): Result {
    var made := [Change(d, created)];
    if s.faults.fchmod || s.faults.fstat || s.faults.unsafe then Result(Refused, created, made, None)
    else
      var w := Writing(created, s.inode, encoded + [NEWLINE], s.faults.writes);
      var all := made + [Change(created, w.0)];
      if !w.1 || s.faults.fsync || s.faults.close then Cleanup(Refused, w.0, name, s, all)
      else Verify(key, name, s.others.beforeLoad(w.0), s, all)
  }

  /** Comparing the digests of two `str` values raises unless both are ASCII. */
  function Verify(key: seq<Code>, name: string, d: Disk, s: Setting, changes: seq<Change>): Result {
    match Load(d, name, s.u, s.faults.load)
    case None => Cleanup(Refused, d, name, s, changes)
    case Some(loaded) =>
      if !Ascii(loaded) || !Ascii(key) then Cleanup(Crashed, d, name, s, changes)
      else if loaded != key || s.faults.fsyncParent then Cleanup(Refused, d, name, s, changes)
      else Result(Stored, d, changes, None)
  }

  // ------------------------------------------------------------ the program's form

  class KeyDirectory {
    var disk: Disk

    constructor (d: Disk)
      ensures disk == d
    {
      disk := d;
    }

    /** Writes until everything is on the disk or a write fails. */
    method WriteAll(inode: nat, value: seq<Byte>, writes: seq<Write>) returns (ok: bool)
      modifies this
      ensures (disk, ok) == Writing(old(disk), inode, value, writes)
    {
      var offset, call := 0, 0;
      assert value[0..] == value && writes[0..] == writes;
      while offset < |value|
        invariant 0 <= offset <= |value| && 0 <= call <= |writes|
        invariant Writing(old(disk), inode, value, writes) == Writing(disk, inode, value[offset..], writes[call..])
      {
        var left := value[offset..];
        if call == |writes| {
          disk := Append(disk, inode, left);
          return true;
        }
        assert writes[call..][0] == writes[call] && writes[call..][1..] == writes[call + 1..];
        if writes[call].Fails? || writes[call].n <= 0 {
          return false;
        }
        var n := Min(writes[call].n, |left|);
        assert left[n..] == value[offset + n..];
        disk := Append(disk, inode, left[..n]);
        offset, call := offset + n, call + 1;
      }
      return true;
    }

    method CleanUp(name: string, s: Setting)
      modifies this
      ensures forall outcome, changes :: disk == Cleanup(outcome, old(disk), name, s, changes).disk
    {
      disk := s.others.beforeStat(disk);
      if s.faults.stat || name !in disk.names || disk.names[name] != s.inode {
        return;
      }
      disk := s.others.beforeUnlink(disk);
      if s.faults.unlink || name !in disk.names {
        return;
      }
      disk := Unlink(disk, name);
    }

    method StoreApiKey(key: seq<Code>, name: string, s: Setting) returns (outcome: Outcome)
      modifies this
      ensures outcome == Store(key, name, old(disk), s).outcome
      ensures disk == Store(key, name, old(disk), s).disk
    {
      outcome := Refused;
      if !Acceptable(key, s.u) {
        return;
      }
      var encoded := s.u.encode(key);
      if encoded.None? || |encoded.value| > LINE_MAX || s.faults.openParent || name in disk.names || s.faults.openFile {
        return;
      }
      disk := Create(disk, name, s.inode);
      if s.faults.fchmod || s.faults.fstat || s.faults.unsafe {
        return;
      }
      var complete := WriteAll(s.inode, encoded.value + [NEWLINE], s.faults.writes);
      if !complete || s.faults.fsync || s.faults.close {
        CleanUp(name, s);
        return;
      }
      disk := s.others.beforeLoad(disk);
      var loaded := Load(disk, name, s.u, s.faults.load);
      if loaded.None? {
        CleanUp(name, s);
      } else if !Ascii(loaded.value) || !Ascii(key) {
        outcome := Crashed;
        CleanUp(name, s);
      } else if loaded.value != key || s.faults.fsyncParent {
        CleanUp(name, s);
      } else {
        outcome := Stored;
      }
    }
  }
}
