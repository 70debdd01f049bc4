/**
 * File and block metadata (lib/protocol/message.go): the flag predicates of
 * the full and the truncated file record, the canonical length, the
 * conflict-resolution policy and the empty-block predicate.
 */
module Message {
  import opened Numbers
  import Vector

  // The flag bits and the block size are declared in protocol.go, which is
  // not part of this model; these are that file's values. The lemmas below
  // rely only on the flags being distinct single bits.
  const FlagDeleted: bv32 := 1 << 12
  const FlagInvalid: bv32 := 1 << 13
  const FlagDirectory: bv32 := 1 << 14
  const FlagNoPermBits: bv32 := 1 << 15
  const FlagSymlink: bv32 := 1 << 16

  /** The fixed size of a full block: 128 KiB. */
  const BlockSize: int32 := 128 * 1024

  /** The length reported for directories and deleted entries. */
  const NoContentLength: int64 := 128

  /** `x` has exactly one bit set. */
  predicate IsSingleBit(x: bv32) {
    x != 0 && x & (x - 1) == 0
  }

  /** Go's `flags&flag != 0`. */
  predicate HasFlag(flags: bv32, flag: bv32) {
    flags & flag != 0
  }

  /** The five flags are distinct single bits. */
  lemma FlagsAreDistinctBits()
    ensures IsSingleBit(FlagDeleted) && IsSingleBit(FlagInvalid) && IsSingleBit(FlagDirectory)
    ensures IsSingleBit(FlagNoPermBits) && IsSingleBit(FlagSymlink)
    ensures |{FlagDeleted, FlagInvalid, FlagDirectory, FlagNoPermBits, FlagSymlink}| == 5
  {
  }

  /**
   * Testing a single-bit flag reads that bit alone: setting or clearing a
   * different single-bit flag does not change the answer, and setting or
   * clearing the flag itself decides it.
   */
  lemma FlagsAreIndependent(flags: bv32, changed: bv32, flag: bv32)
    requires IsSingleBit(changed) && IsSingleBit(flag) && changed != flag
    ensures HasFlag(flags | changed, flag) == HasFlag(flags, flag)
    ensures HasFlag(flags & !changed, flag) == HasFlag(flags, flag)
    ensures HasFlag(flags | flag, flag) && !HasFlag(flags & !flag, flag)
  {
  }

  /** A block of a file: where it starts, how long it is, and the digest of its bytes. */
  datatype BlockInfo = BlockInfo(offset: int64, length: int32, hash: seq<byte>)
  {
    /**
     * Go's `IsEmpty`: a full-size block of zeroes. `emptyBlockHash` is the
     * SHA-256 digest of `BlockSize` zero bytes, which the package computes
     * once at start-up.
     */
    function IsEmpty(emptyBlockHash: seq<byte>): (r: bool)
      ensures r ==> |hash| == |emptyBlockHash| && forall k :: 0 <= k < |hash| ==> hash[k] == emptyBlockHash[k]
      ensures r <==> length == BlockSize && hash == emptyBlockHash
    {
      length == BlockSize && hash == emptyBlockHash
    }
  }

  /** Changing the length, or any single byte of the hash, of an empty block makes it non-empty. */
  lemma EmptyBlockIsExact(b: BlockInfo, emptyBlockHash: seq<byte>, length: int32, k: nat, x: byte)
    requires b.IsEmpty(emptyBlockHash)
    requires k < |b.hash| && x != b.hash[k]
    ensures length != b.length ==> !BlockInfo(b.offset, length, b.hash).IsEmpty(emptyBlockHash)
    ensures !BlockInfo(b.offset, b.length, b.hash[k := x]).IsEmpty(emptyBlockHash)
  {
    assert b.hash[k := x][k] != emptyBlockHash[k];
  }

  /** A file record with its block list. */
  datatype FileInfo = FileInfo(
    name: string,
    flags: bv32,
    modified: int64,
    version: Vector.Vector,
    length: int64,
    blocks: seq<BlockInfo>)
  {
    function IsDeleted(): (r: bool)
      ensures r <==> flags & FlagDeleted == FlagDeleted
    {
      HasFlag(flags, FlagDeleted)
    }

    function IsInvalid(): (r: bool)
      ensures r <==> flags & FlagInvalid == FlagInvalid
    {
      HasFlag(flags, FlagInvalid)
    }

    function IsDirectory(): (r: bool)
      ensures r <==> flags & FlagDirectory == FlagDirectory
    {
      HasFlag(flags, FlagDirectory)
    }

    function IsSymlink(): (r: bool)
      ensures r <==> flags & FlagSymlink == FlagSymlink
    {
      HasFlag(flags, FlagSymlink)
    }

    /** True exactly when the no-permission-bits flag is clear. */
    function HasPermissionBits(): (r: bool)
      ensures r <==> flags & FlagNoPermBits != FlagNoPermBits
    {
      !HasFlag(flags, FlagNoPermBits)
    }

    /** The canonical length: 128 for directories and deleted entries, the stored length otherwise. */
    function FileLength(): (r: int64)
      ensures HasFlag(flags, FlagDirectory) || HasFlag(flags, FlagDeleted) ==> r == NoContentLength
      ensures !HasFlag(flags, FlagDirectory) && !HasFlag(flags, FlagDeleted) ==> r == length
    {
      if IsDirectory() || IsDeleted() then NoContentLength else length
    }

    function FileName(): (r: string)
      ensures r == name
    {
      name
    }

    /**
     * Go's `WinsConflict`: whether this record is the one to keep when it
     * conflicts with `other`. A modification beats a deletion; otherwise the
     * later modification time wins; on equal times this record wins exactly
     * when its version compares ConcurrentGreater.
     */
    function WinsConflict(other: FileInfo, tieBreak: (Vector.Vector, Vector.Vector) -> bool): (r: bool)
      ensures !IsDeleted() && other.IsDeleted() ==> r
      ensures IsDeleted() && !other.IsDeleted() ==> !r
      ensures IsDeleted() == other.IsDeleted() && modified != other.modified ==> (r <==> modified > other.modified)
      ensures IsDeleted() == other.IsDeleted() && modified == other.modified ==>
                (r <==> !Vector.AtLeast(version, other.version) && !Vector.AtLeast(other.version, version) && tieBreak(version, other.version))
    {
      if !IsDeleted() && other.IsDeleted() then
        true
      else if IsDeleted() && !other.IsDeleted() then
        false
      else if modified > other.modified then
        true
      else if modified < other.modified then
        false
      else
        Vector.Compare(version, other.version, tieBreak) == Vector.ConcurrentGreater
    }
  }

  /** A file record without its block list; it shares every predicate of `FileInfo`. */
  datatype FileInfoTruncated = FileInfoTruncated(
    name: string,
    flags: bv32,
    modified: int64,
    version: Vector.Vector,
    length: int64)
  {
    function IsDeleted(): (r: bool)
      ensures r <==> flags & FlagDeleted == FlagDeleted
    {
      HasFlag(flags, FlagDeleted)
    }

    function IsInvalid(): (r: bool)
      ensures r <==> flags & FlagInvalid == FlagInvalid
    {
      HasFlag(flags, FlagInvalid)
    }

    function IsDirectory(): (r: bool)
      ensures r <==> flags & FlagDirectory == FlagDirectory
    {
      HasFlag(flags, FlagDirectory)
    }

    function IsSymlink(): (r: bool)
      ensures r <==> flags & FlagSymlink == FlagSymlink
    {
      HasFlag(flags, FlagSymlink)
    }

    function HasPermissionBits(): (r: bool)
      ensures r <==> flags & FlagNoPermBits != FlagNoPermBits
    {
      !HasFlag(flags, FlagNoPermBits)
    }

    function FileLength(): (r: int64)
      ensures HasFlag(flags, FlagDirectory) || HasFlag(flags, FlagDeleted) ==> r == NoContentLength
      ensures !HasFlag(flags, FlagDirectory) && !HasFlag(flags, FlagDeleted) ==> r == length
    {
      if IsDirectory() || IsDeleted() then NoContentLength else length
    }

    function FileName(): (r: string)
      ensures r == name
    {
      name
    }
  }

  /** A truncated record answers every shared query as the full record with the same flags, length and name. */
  lemma TruncatedAgrees(f: FileInfo, t: FileInfoTruncated)
    requires f.flags == t.flags && f.length == t.length && f.name == t.name
    ensures f.IsDeleted() == t.IsDeleted() && f.IsInvalid() == t.IsInvalid()
    ensures f.IsDirectory() == t.IsDirectory() && f.IsSymlink() == t.IsSymlink()
    ensures f.HasPermissionBits() == t.HasPermissionBits()
    ensures f.FileLength() == t.FileLength() && f.FileName() == t.FileName()
  {
  }

  // ---------------------------------------------------------------------
  // The conflict policy between two records
  // ---------------------------------------------------------------------

  /** With an antisymmetric tie-break, two records never both win against each other. */
  lemma WinsConflictNeverBoth(f: FileInfo, other: FileInfo, tieBreak: (Vector.Vector, Vector.Vector) -> bool)
    requires Vector.AntisymmetricTieBreak(tieBreak)
    ensures !(f.WinsConflict(other, tieBreak) && other.WinsConflict(f, tieBreak))
  {
    Vector.CompareAntisymmetric(f.version, other.version, tieBreak);
  }

  /**
   * Exactly one of two records wins when their deletion status differs, when
   * their modification times differ, or when their versions are concurrent
   * (given an antisymmetric tie-break).
   */
  lemma WinsConflictExactlyOne(f: FileInfo, other: FileInfo, tieBreak: (Vector.Vector, Vector.Vector) -> bool)
    requires Vector.AntisymmetricTieBreak(tieBreak)
    requires f.IsDeleted() != other.IsDeleted()
          || f.modified != other.modified
          || Vector.Concurrent(f.version, other.version, tieBreak)
    ensures f.WinsConflict(other, tieBreak) != other.WinsConflict(f, tieBreak)
  {
    Vector.CompareAntisymmetric(f.version, other.version, tieBreak);
  }

  /**
   * When deletion status and modification time are equal and the versions
   * are not concurrent (equal, or one dominates), neither record wins.
   */
  lemma WinsConflictOrderedVersions(f: FileInfo, other: FileInfo, tieBreak: (Vector.Vector, Vector.Vector) -> bool)
    requires f.IsDeleted() == other.IsDeleted() && f.modified == other.modified
    requires !Vector.Concurrent(f.version, other.version, tieBreak)
    ensures !f.WinsConflict(other, tieBreak) && !other.WinsConflict(f, tieBreak)
  {
  }

  /** The live record beats the deleted one, whatever the times and versions. */
  lemma LiveBeatsDeleted(f: FileInfo, other: FileInfo, tieBreak: (Vector.Vector, Vector.Vector) -> bool)
    requires !f.IsDeleted() && other.IsDeleted()
    ensures f.WinsConflict(other, tieBreak) && !other.WinsConflict(f, tieBreak)
  {
  }

  /** With equal deletion status, the strictly later record wins, whatever the versions. */
  lemma LaterWins(f: FileInfo, other: FileInfo, tieBreak: (Vector.Vector, Vector.Vector) -> bool)
    requires f.IsDeleted() == other.IsDeleted() && f.modified > other.modified
    ensures f.WinsConflict(other, tieBreak) && !other.WinsConflict(f, tieBreak)
  {
  }
}
