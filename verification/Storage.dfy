/**
  * The vault file on disk: a file system with a volatile and a durable layer, and the
  * replacement of the file by way of a temporary file in the same directory.
  */
module Storage {
  import opened Basics
  import Hex

  const MAX_READ_BYTES := 64 * 1024 * 1024

  type Name = string

  // ---- The file system ----

  /** A file's content. Until it is synced a power loss may keep any prefix of it. */
  datatype Inode = Inode(data: Bytes, synced: bool)

  type Directory = map<Name, nat>

  /**
    * `live` is the directory as running programs see it. A power loss may bring back, name by
    * name, any of the `past` directories: those that were replaced since the last directory sync.
    */
  datatype Fs = Fs(inodes: seq<Inode>, live: Directory, past: seq<Directory>) {
    ghost predicate Valid() {
      forall v, n :: v in Versions() && n in v ==> v[n] < |inodes|
    }

    function Versions(): seq<Directory> {
      past + [live]
    }

    /** The content that running programs see under a name. */
    function Read(n: Name): Option<Bytes> {
      if n in live && live[n] < |inodes| then Some(inodes[live[n]].data) else None
    }

    function Replace(d: Directory): Fs {
      this.(live := d, past := past + [live])
    }

    function Create(n: Name): Fs {
      this.(inodes := inodes + [Inode([], false)]).Replace(live[n := |inodes|])
    }

    function Append(ino: nat, more: Bytes): Fs
      requires ino < |inodes|
    {
      this.(inodes := inodes[ino := Inode(inodes[ino].data + more, false)])
    }

    function Sync(ino: nat): Fs
      requires ino < |inodes|
    {
      this.(inodes := inodes[ino := inodes[ino].(synced := true)])
    }

    function Rename(from: Name, to: Name): Fs
      requires from in live
    {
      Replace((live - {from})[to := live[from]])
    }

    function Remove(n: Name): Fs {
      Replace(live - {n})
    }

    function SyncDirectory(): Fs {
      this.(past := [])
    }
  }

  /** What a file can hold after a power loss. */
  ghost predicate Survives(i: Inode, content: Bytes) {
    if i.synced then content == i.data else content <= i.data
  }

  /** After a power loss in state `fs`, the name may hold `content` (or be absent). */
  ghost predicate MayHold(fs: Fs, n: Name, content: Option<Bytes>) {
    exists v :: v in fs.Versions() && HeldIn(fs, v, n, content)
  }

  ghost predicate HeldIn(fs: Fs, v: Directory, n: Name, content: Option<Bytes>) {
    match content
    case None => n !in v
    case Some(c) => n in v && v[n] < |fs.inodes| && Survives(fs.inodes[v[n]], c)
  }

  // ---- Errors ----

  datatype IoError = NotFound | OtherIo

  function MapIo(e: IoError): Error {
    match e
    case NotFound => VaultNotFound
    case OtherIo => Error.Storage
  }

  // ---- Reading ----

  /** `lookFails` is a failure to look at the file, which counts as its absence. */
  predicate VaultExists(fs: Fs, path: Name, lookFails: bool) {
    !lookFails && fs.Read(path).Some?
  }

  /** Which call of a read fails. */
  datatype ReadFault = AtMetadata(e: IoError) | AtRead(e: IoError)

  function ReadVault(fs: Fs, path: Name, fault: Option<ReadFault>): Result<Bytes> {
    if fault.Some? && fault.value.AtMetadata? then Err(MapIo(fault.value.e))
    else
      match fs.Read(path)
      case None => Err(VaultNotFound)
      case Some(b) =>
        if |b| > MAX_READ_BYTES then Err(VaultFormat)
        else if fault.Some? then Err(MapIo(fault.value.e))
        else Ok(b)
  }

  // ---- Temporary names ----

  /** The name for two draws of eight bytes; a failed draw counts as eight zero bytes. */
  function TempName(a: Bytes, b: Bytes): Name {
    ".vt." + Hex.Of(a + b) + ".tmp"
  }

  function Zeros(): Bytes {
    [0, 0, 0, 0, 0, 0, 0, 0]
  }

  function OrZeros(d: Draw): Bytes {
    if d.Some? then d.value else Zeros()
  }

  method TempPathIn(a: Draw, b: Draw) returns (name: Name)
    requires DrawOf(a, 8) && DrawOf(b, 8)
    ensures name == TempName(OrZeros(a), OrZeros(b))
  {
    var bytes := OrZeros(a) + OrZeros(b);
    name := ".vt.";
    for i := 0 to |bytes|
      invariant name == ".vt." + Hex.Of(bytes[..i])
    {
      Hex.OfAppend(bytes[..i], bytes[i]);
      assert bytes[..i + 1] == bytes[..i] + [bytes[i]];
      name := name + [Hex.Digit(bytes[i] / 16), Hex.Digit(bytes[i] % 16)];
    }
    assert bytes[..|bytes|] == bytes;
    name := name + ".tmp";
  }

  /** Temporary names collide exactly when all sixteen random bytes do, in particular after failed draws. */
  lemma TempNamesDiffer(a: Bytes, b: Bytes, a': Bytes, b': Bytes)
    requires |a| == |b| == |a'| == |b'| == 8
    ensures TempName(a, b) == TempName(a', b') <==> a == a' && b == b'
  {
    var h, h' := Hex.Of(a + b), Hex.Of(a' + b');
    if TempName(a, b) == TempName(a', b') {
      assert h == TempName(a, b)[4..36] && h' == TempName(a', b')[4..36];
      Hex.OfInjective(a + b, a' + b');
      assert a == (a + b)[..8] && b == (a + b)[8..];
      assert a' == (a' + b')[..8] && b' == (a' + b')[8..];
    }
  }

  /** The name is `.vt.`, two lower-case digits for each of the sixteen bytes, zeros for a failed draw, and `.tmp`. */
  lemma TempNameIs(a: Draw, b: Draw, i: nat)
    requires DrawOf(a, 8) && DrawOf(b, 8) && i < 16
    ensures var name := TempName(OrZeros(a), OrZeros(b));
            var x := if i < 8 then (if a.Some? then a.value[i] else 0) else if b.Some? then b.value[i - 8] else 0;
            && |name| == 40 && name[..4] == ".vt." && name[36..] == ".tmp"
            && name[4 + 2 * i] == "0123456789abcdef"[x / 16] && name[5 + 2 * i] == "0123456789abcdef"[x % 16]
  {
    var bytes := OrZeros(a) + OrZeros(b);
    Hex.OfIsLowerCase(bytes, i);
  }

  // ---- Replacing the file ----

  /** Which calls of one replacement fail. A failing write has written `written` bytes by then. */
  datatype Faults = Faults(
    create: Option<IoError>,
    write: Option<(nat, IoError)>,
    flush: Option<IoError>,
    sync: Option<IoError>,
    rename: Option<IoError>,
    removeFails: bool,
    directorySyncFails: bool)

  function Min(a: nat, b: nat): nat {
    if a < b then a else b
  }

  function CleanUp(fs: Fs, tmp: Name, f: Faults): Fs {
    if f.removeFails || tmp !in fs.live then fs else fs.Remove(tmp)
  }

  /** Creating, writing, flushing and syncing the temporary file. */
  function WriteTemp(fs: Fs, tmp: Name, bytes: Bytes, f: Faults): (Fs, Result<Unit>) {
    if f.create.Some? then (fs, Err(MapIo(f.create.value)))
    else if tmp in fs.live then (fs, Err(Error.Storage))
    else
      var ino := |fs.inodes|;
      var fs1 := fs.Create(tmp);
      if f.write.Some? then (fs1.Append(ino, bytes[..Min(f.write.value.0, |bytes|)]), Err(MapIo(f.write.value.1)))
      else
        var fs2 := fs1.Append(ino, bytes);
        if f.flush.Some? then (fs2, Err(MapIo(f.flush.value)))
        else if f.sync.Some? then (fs2, Err(MapIo(f.sync.value)))
        else (fs2.Sync(ino), Ok(Unit))
  }

  function AtomicWrite(fs: Fs, path: Name, tmp: Name, bytes: Bytes, f: Faults): (Fs, Result<Unit>) {
    if bytes == [] then (fs, Err(VaultFormat))
    else
      var (fs1, w) := WriteTemp(fs, tmp, bytes, f);
      if w.Err? then (CleanUp(fs1, tmp, f), w)
      else if f.rename.Some? then (CleanUp(fs1, tmp, f), Err(MapIo(f.rename.value)))
      else if tmp !in fs1.live then (CleanUp(fs1, tmp, f), Err(VaultNotFound))
      else
        var fs2 := fs1.Rename(tmp, path);
        (if f.directorySyncFails then fs2 else fs2.SyncDirectory(), Ok(Unit))
  }

  /** The file system as a shared object; every call either does its part or fails as told. */
  class FileSystem {
    var fs: Fs

    constructor (start: Fs)
      ensures fs == start
    {
      fs := start;
    }

    method CreateSecure(n: Name, fault: Option<IoError>) returns (r: Result<nat>)
      modifies this
      ensures fault.Some? ==> fs == old(fs) && r == Err(MapIo(fault.value))
      ensures fault.None? && n in old(fs).live ==> fs == old(fs) && r == Err(Error.Storage)
      ensures fault.None? && n !in old(fs).live ==> fs == old(fs).Create(n) && r == Ok(|old(fs).inodes|)
    {
      if fault.Some? {
        return Err(MapIo(fault.value));
      }
      if n in fs.live {
        return Err(Error.Storage);
      }
      r := Ok(|fs.inodes|);
      fs := fs.Create(n);
    }

    method WriteAll(ino: nat, bytes: Bytes, fault: Option<(nat, IoError)>) returns (r: Result<Unit>)
      requires ino < |fs.inodes|
      modifies this
      ensures fault.None? ==> r == Ok(Unit) && fs == old(fs).Append(ino, bytes)
      ensures fault.Some? ==> r == Err(MapIo(fault.value.1)) && fs == old(fs).Append(ino, bytes[..Min(fault.value.0, |bytes|)])
    {
      if fault.Some? {
        fs := fs.Append(ino, bytes[..Min(fault.value.0, |bytes|)]);
        return Err(MapIo(fault.value.1));
      }
      fs := fs.Append(ino, bytes);
      return Ok(Unit);
    }

    method SyncAll(ino: nat, fault: Option<IoError>) returns (r: Result<Unit>)
      requires ino < |fs.inodes|
      modifies this
      ensures fault.None? ==> r == Ok(Unit) && fs == old(fs).Sync(ino)
      ensures fault.Some? ==> r == Err(MapIo(fault.value)) && fs == old(fs)
    {
      if fault.Some? {
        return Err(MapIo(fault.value));
      }
      fs := fs.Sync(ino);
      return Ok(Unit);
    }

    method RemoveFile(n: Name, fails: bool)
      modifies this
      ensures fs == if fails || n !in old(fs).live then old(fs) else old(fs).Remove(n)
    {
      if !fails && n in fs.live {
        fs := fs.Remove(n);
      }
    }

    method WriteTempFile(tmp: Name, bytes: Bytes, f: Faults) returns (r: Result<Unit>)
      modifies this
      ensures (fs, r) == WriteTemp(old(fs), tmp, bytes, f)
    {
      var ino :- CreateSecure(tmp, f.create);
      var _ :- WriteAll(ino, bytes, f.write);
      if f.flush.Some? {
        return Err(MapIo(f.flush.value));
      }
      var _ :- SyncAll(ino, f.sync);
      return Ok(Unit);
    }

    /** Replace the file at `path`, going through the temporary name `tmp`. */
    method WriteVaultAtomic(path: Name, tmp: Name, bytes: Bytes, f: Faults) returns (r: Result<Unit>)
      modifies this
      ensures (fs, r) == AtomicWrite(old(fs), path, tmp, bytes, f)
    {
      if bytes == [] {
        return Err(VaultFormat);
      }
      var written := WriteTempFile(tmp, bytes, f);
      if written.Err? {
        RemoveFile(tmp, f.removeFails);
        return written;
      }
      if f.rename.Some? || tmp !in fs.live {
        r := Err(if f.rename.Some? then MapIo(f.rename.value) else VaultNotFound);
        RemoveFile(tmp, f.removeFails);
        return;
      }
      fs := fs.Rename(tmp, path);
      if !f.directorySyncFails {
        fs := fs.SyncDirectory();
      }
      return Ok(Unit);
    }
  }

  /** Every name but `n` reads the same. */
  ghost predicate SameElsewhere(fs: Fs, fs': Fs, n: Name) {
    forall m :: m != n ==> fs'.Read(m) == fs.Read(m)
  }

  lemma ReplaceIsValid(fs: Fs, d: Directory)
    requires fs.Valid() && forall n :: n in d ==> d[n] < |fs.inodes|
    ensures fs.Replace(d).Valid()
  {
  }

  lemma LiveInRange(fs: Fs)
    requires fs.Valid()
    ensures forall n :: n in fs.live ==> fs.live[n] < |fs.inodes|
  {
    assert fs.live in fs.Versions();
  }

  lemma WriteTempOutcome(fs: Fs, tmp: Name, bytes: Bytes, f: Faults)
    requires fs.Valid()
    ensures var (fs', r) := WriteTemp(fs, tmp, bytes, f);
            fs'.Valid() && SameElsewhere(fs, fs', tmp) && (r.Ok? ==> fs'.Read(tmp) == Some(bytes))
  {
    LiveInRange(fs);
    var grown := fs.(inodes := fs.inodes + [Inode([], false)]);
    assert grown.Valid();
    ReplaceIsValid(grown, fs.live[tmp := |fs.inodes|]);
    assert [] + bytes == bytes;
  }

  lemma CleanUpOutcome(fs: Fs, tmp: Name, f: Faults)
    requires fs.Valid()
    ensures CleanUp(fs, tmp, f).Valid() && SameElsewhere(fs, CleanUp(fs, tmp, f), tmp)
  {
    LiveInRange(fs);
    ReplaceIsValid(fs, fs.live - {tmp});
  }

  lemma RenameOutcome(fs: Fs, from: Name, to: Name)
    requires fs.Valid() && from in fs.live && from != to
    ensures var fs' := fs.Rename(from, to);
            fs'.Valid() && fs'.Read(to) == fs.Read(from) && forall n :: n != from && n != to ==> fs'.Read(n) == fs.Read(n)
  {
    LiveInRange(fs);
    ReplaceIsValid(fs, (fs.live - {from})[to := fs.live[from]]);
  }

  /** A replacement either puts exactly the new bytes at the path or leaves what was there; nothing else changes but the temporary name. */
  lemma AtomicWriteOutcome(fs: Fs, path: Name, tmp: Name, bytes: Bytes, f: Faults)
    requires fs.Valid() && tmp != path
    ensures var (fs', r) := AtomicWrite(fs, path, tmp, bytes, f);
            && fs'.Valid()
            && fs'.Read(path) == (if r.Ok? then Some(bytes) else fs.Read(path))
            && forall n :: n != path && n != tmp ==> fs'.Read(n) == fs.Read(n)
  {
    var (fs1, w) := WriteTemp(fs, tmp, bytes, f);
    WriteTempOutcome(fs, tmp, bytes, f);
    CleanUpOutcome(fs1, tmp, f);
    if bytes != [] && w.Ok? && f.rename.None? && tmp in fs1.live {
      RenameOutcome(fs1, tmp, path);
      var fs2 := fs1.Rename(tmp, path);
      assert fs2.live in fs2.Versions();
    }
  }

  /** A replacement that fails leaves no temporary file unless the removal failed too. */
  lemma FailedWriteCleansUp(fs: Fs, path: Name, tmp: Name, bytes: Bytes, f: Faults)
    requires AtomicWrite(fs, path, tmp, bytes, f).1.Err? && bytes != [] && !f.removeFails
    ensures tmp !in AtomicWrite(fs, path, tmp, bytes, f).0.live
  {
  }
}
