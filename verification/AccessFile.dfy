/** The access file and the password that opens it (internal/access/access.go).

    The seal is ideal: it opens with the password, salt, work factor, nonce and label
    it was made with, and with nothing else.
 */
module AccessFile {
  import opened Bytes

  const MIN_PASSWORD := 12
  const MAX_PASSWORD := 256
  const WORK_FACTOR := 600_000
  const KDF := "pbkdf2-sha256"
  const LABEL := "porch-access-v1"

  type DataKey = k: bytes | |k| == 32 witness seq(32, _ => 0)

  datatype Box = Box(password: string, salt: bytes, iterations: int, nonce: bytes, purpose: string, key: bytes)

  datatype Sealed = Sealed(version: int, kdf: string, iterations: int, salt: bytes, nonce: bytes, box: Box)

  /** What stands at the file's path. */
  datatype Disk = Missing | Foreign | Holds(seal: Sealed)

  datatype Error = WrongPassword | WeakPassword | TooLong | Unreadable | NotOurs | NotSaved | NotClosed | Exists

  datatype Result<+T> = Ok(value: T) | Err(error: Error)

  /** Bytes a character takes in UTF-8. */
  function Width(c: char): nat {
    if c as int < 0x80 then 1 else if c as int < 0x800 then 2 else if c as int < 0x1_0000 then 3 else 4
  }

  function ByteLen(s: string): nat {
    if s == "" then 0 else Width(s[0]) + ByteLen(s[1..])
  }

  /** The shortest password is counted in characters, the longest in bytes. */
  function CheckLength(password: string): Result<()> {
    if |password| < MIN_PASSWORD then Err(WeakPassword)
    else if ByteLen(password) > MAX_PASSWORD then Err(TooLong)
    else Ok(())
  }

  function Seal(key: DataKey, password: string, salt: bytes, nonce: bytes): Sealed {
    Sealed(1, KDF, WORK_FACTOR, salt, nonce, Box(password, salt, WORK_FACTOR, nonce, LABEL, key))
  }

  function Open(s: Sealed, password: string): Result<bytes> {
    if s.box == Box(password, s.salt, s.iterations, s.nonce, LABEL, s.box.key) then Ok(s.box.key)
    else Err(WrongPassword)
  }

  function Unlock(disk: Disk, password: string): Result<DataKey> {
    if ByteLen(password) == 0 || ByteLen(password) > MAX_PASSWORD then Err(WrongPassword)
    else
      match disk
      case Missing => Err(Unreadable)
      case Foreign => Err(NotOurs)
      case Holds(s) =>
        if s.version != 1 || s.kdf != KDF || s.iterations < WORK_FACTOR || |s.salt| != 16 || |s.nonce| != 12 then
          Err(NotOurs)
        else
          match Open(s, password)
          case Err(e) => Err(e)
          case Ok(key) => if |key| == 32 then Ok(key) else Err(WrongPassword)
  }

  class Store {
    var disk: Disk

    constructor (disk: Disk)
      ensures this.disk == disk
    {
      this.disk := disk;
    }

    /** `saved` is whether the operating system made the file and wrote it out, `closed`
        whether it then closed it without complaint. A file that fails to close stands. */
    method Create(password: string, key: DataKey, salt: bytes, nonce: bytes, saved: bool,
                  closed: bool) returns (r: Result<()>)
      requires |salt| == 16 && |nonce| == 12
      modifies this
      ensures r.Ok? <==> CheckLength(password).Ok? && old(disk).Missing? && saved && closed
      ensures r.Err? ==> r == if CheckLength(password).Err? then CheckLength(password)
                              else Err(if !old(disk).Missing? then Exists else if saved then NotClosed else NotSaved)
      ensures disk == if r.Ok? || r == Err(NotClosed) then Holds(Seal(key, password, salt, nonce)) else old(disk)
    {
      r := CheckLength(password);
      if r.Err? {
        return;
      }
      if !disk.Missing? {
        return Err(Exists);
      }
      if !saved {
        return Err(NotSaved);
      }
      disk := Holds(Seal(key, password, salt, nonce));
      if !closed {
        return Err(NotClosed);
      }
    }

    /** `saved` is whether the operating system wrote the new file and renamed it. */
    method Change(current: string, next: string, salt: bytes, nonce: bytes, saved: bool) returns (r: Result<()>)
      requires |salt| == 16 && |nonce| == 12
      modifies this
      ensures r.Ok? <==> CheckLength(next).Ok? && Unlock(old(disk), current).Ok? && saved
      ensures r.Err? ==> r == if CheckLength(next).Err? then CheckLength(next)
                              else if Unlock(old(disk), current).Err? then Err(Unlock(old(disk), current).error)
                              else Err(NotSaved)
      ensures disk == if r.Ok? then Holds(Seal(Unlock(old(disk), current).value, next, salt, nonce)) else old(disk)
    {
      r := CheckLength(next);
      if r.Err? {
        return;
      }
      var key := Unlock(disk, current);
      if key.Err? {
        return Err(key.error);
      }
      if !saved {
        return Err(NotSaved);
      }
      disk := Holds(Seal(key.value, next, salt, nonce));
    }
  }

  lemma {:induction false} NoShorterInBytes(s: string)
    ensures ByteLen(s) >= |s|
  {
    if s != "" {
      NoShorterInBytes(s[1..]);
    }
  }

  /** An ASCII password may be chosen when it has 12 to 256 characters; one of the widest characters,
      with 12 to 64. */
  lemma {:induction false} FitPasswords(s: string)
    ensures (forall i :: 0 <= i < |s| ==> s[i] as int < 0x80) ==> (CheckLength(s).Ok? <==> 12 <= |s| <= 256)
    ensures (forall i :: 0 <= i < |s| ==> s[i] as int >= 0x1_0000) ==> (CheckLength(s).Ok? <==> 12 <= |s| <= 64)
    ensures (forall i :: 0 <= i < |s| ==> s[i] as int < 0x80) ==> ByteLen(s) == |s|
    ensures (forall i :: 0 <= i < |s| ==> s[i] as int >= 0x1_0000) ==> ByteLen(s) == 4 * |s|
  {
    if s != "" {
      FitPasswords(s[1..]);
    }
  }

  /** Whatever a sealed file was sealed under is the one password that opens it, and it
      gives back the key: a password long enough to be chosen is never locked out. */
  lemma SealOpens(key: DataKey, password: string, salt: bytes, nonce: bytes, attempt: string)
    requires |salt| == 16 && |nonce| == 12 && CheckLength(password).Ok?
    ensures Unlock(Holds(Seal(key, password, salt, nonce)), attempt).Ok? <==> attempt == password
    ensures Unlock(Holds(Seal(key, password, salt, nonce)), password) == Ok(key)
  {
    NoShorterInBytes(password);
  }

  /** A password opens what stands at the path exactly when a file stands there that was sealed under it,
      by this version, in at least 600,000 rounds, with a salt, a nonce and a key of their sizes. */
  lemma OpensExactly(disk: Disk, password: string, key: bytes)
    ensures Unlock(disk, password) == Ok(key) <==>
              && |key| == 32 && 0 < ByteLen(password) <= 256
              && exists salt: bytes, nonce: bytes, rounds: int ::
                   && |salt| == 16 && |nonce| == 12 && rounds >= 600_000
                   && disk == Holds(Sealed(1, "pbkdf2-sha256", rounds, salt, nonce,
                                           Box(password, salt, rounds, nonce, "porch-access-v1", key)))
  {
    if Unlock(disk, password) == Ok(key) {
      var s := disk.seal;
      assert s == Sealed(1, "pbkdf2-sha256", s.iterations, s.salt, s.nonce,
                         Box(password, s.salt, s.iterations, s.nonce, "porch-access-v1", key));
    }
  }

  /** One password opens a file, whoever wrote it. */
  lemma OnePassword(disk: Disk, a: string, b: string)
    requires Unlock(disk, a).Ok? && Unlock(disk, b).Ok?
    ensures a == b
  {}
}
