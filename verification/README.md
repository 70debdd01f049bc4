# Syncthing block exchange protocol: metadata algebra

A Dafny model of the sequential core of syncthing's `lib/protocol` package:

- **Version vectors** (`vector.dfy`). A vector is a list of `(id, value)`
  counters kept in strictly increasing id order (`Vector.Valid`). `Update`,
  `Merge`, `Copy` and `Counter` (here `CounterValue`) are methods with the
  same loops as the Go code. Each is proved equal to a recursive reference
  function (`Incremented`, `Merged`, `Lookup`), and lemmas prove what those
  functions mean: sortedness is kept, exactly one counter rises by one, each
  counter becomes the maximum, and merging is a least upper bound. `Compare`
  is not in the modelled files. It is given its pointwise meaning (equal,
  dominates, is dominated, concurrent) and takes the choice between
  `ConcurrentGreater` and `ConcurrentLesser` as a parameter, `tieBreak`.
  Lemmas that need that choice to be antisymmetric say so in a `requires`.
- **File metadata** (`message.dfy`). The flag predicates, `FileLength` and
  `FileName` of `FileInfo` and `FileInfoTruncated`, the conflict policy
  `WinsConflict`, and `BlockInfo.IsEmpty`.
- **The 4-byte message header** (`header.dfy`). `encodeHeader` and
  `decodeHeader` work on `bv32`: version in bits 31-28, message ID in bits
  27-16, message type in bits 15-8 and compression in bit 0. Big-endian
  `Marshal`/`MarshalTo` write the packed word, and `Unmarshal` reads it back
  into a header variable (`HeaderRef`).
- `numbers.dfy` holds the machine integer types and Go's wrapping `uint64`
  increment. `wrappers.dfy` holds `Option`, which is used for Go's `error`
  results.

Two behaviours of the code a reader may not expect:

- `Unmarshal` reads the first four bytes of any longer buffer. On a shorter
  one it panics rather than returning an error, so the model makes at
  least four bytes a precondition.
- `WinsConflict` has no winner in either direction when two records agree
  on deletion status and modification time and their versions are equal or
  ordered. `Message.WinsConflictOrderedVersions` proves this. A definite
  winner exists only in the cases that `Message.WinsConflictExactlyOne`
  lists.

## Model

| member | source | states |
|---|---|---|
| Numbers.Increment | lib/protocol/vector.go:19 | `Value++` on a `uint64` adds one below 2^64-1 and wraps to 0 at 2^64-1 |
| Vector.Lookup | lib/protocol/vector.go:103-110 | 0 when no counter carries the id; with `LookupAt`, the stored value in a sorted vector |
| Vector.LookupAt | lib/protocol/vector.go:103-110 | in a sorted vector, looking up a stored counter's id gives that counter's value |
| Vector.IdsAt | lib/protocol/vector.go:103-110 | an id is in the vector's id set exactly when some counter carries it |
| Vector.Update | lib/protocol/vector.go:15-33 | equals `Incremented`; the id set gains `id`; sortedness is kept; the counter for `id` rises by one (wrapping); every other counter is unchanged |
| Vector.IncrementedReplaces | lib/protocol/vector.go:16-20 | when every id before `i` is smaller and `v[i]` carries the id, the update increments `v[i]` in place |
| Vector.IncrementedInserts | lib/protocol/vector.go:21-28 | when every id before `i` is smaller and `v[i]` (if any) is larger, the update inserts `(id, 1)` at `i`; `i = |v|` is the append at line 32 |
| Vector.IncrementedIds | lib/protocol/vector.go:15-33 | the updated vector's id set is the old one plus `id` |
| Vector.IncrementedValid | lib/protocol/vector.go:15-33 | a sorted vector stays sorted; its length grows by one exactly when the id was absent |
| Vector.IncrementedLookup | lib/protocol/vector.go:16-32 | the counter for `id` becomes its increment (1 when absent); every other id's counter is unchanged |
| Vector.UpdateIsGreater | lib/protocol/vector.go:15-33 | without overflow, the updated vector compares `Greater` than the original |
| Vector.Merge | lib/protocol/vector.go:38-68 | equals `Merged`; the id set is the union; sortedness is kept; each counter is the maximum of the two inputs' counters |
| Vector.MergeStepInsert | lib/protocol/vector.go:46-53 | inserting b's smaller counter before `v[vi]` and advancing both indices keeps the result the merge walk will produce |
| Vector.MergeStepEqual | lib/protocol/vector.go:55-63 | on equal ids, raising `v[vi]` to b's larger value and advancing both indices keeps the result the walk will produce |
| Vector.MergeStepBelow | lib/protocol/vector.go:61-64 | when `v[vi]` is below b's counter, advancing `vi` alone keeps the result the walk will produce |
| Vector.MergeStepEnd | lib/protocol/vector.go:41-44 | at the end of v, the result is v with the rest of b appended |
| Vector.MergeStepDone | lib/protocol/vector.go:40-67 | once b is exhausted, the result is the walked vector itself |
| Vector.MergedIds | lib/protocol/vector.go:38-68 | the merged id set is the union of both id sets |
| Vector.MergedValid | lib/protocol/vector.go:38-68 | merging two sorted vectors gives a sorted vector |
| Vector.MergedLookup | lib/protocol/vector.go:46-59 | for every id, the merged counter is the maximum of the two counters |
| Vector.MergedSelf | lib/protocol/vector.go:38-68 | merging a vector with itself gives it back |
| Vector.MergedCommutes | lib/protocol/vector.go:38-68 | `Merge(a, b)` and `Merge(b, a)` give the same vector |
| Vector.MergedIsLeastUpperBound | lib/protocol/vector.go:35-37 | the merge dominates both inputs, and every vector that dominates both dominates the merge |
| Vector.Copy | lib/protocol/vector.go:71-75 | the copy holds the same counters, so every lookup agrees |
| Vector.CounterValue | lib/protocol/vector.go:103-110 | returns the stored value when the id is present (sorted vector) and 0 when it is absent |
| Vector.Dominates | lib/protocol/vector.go:82-94 | decides, from the two vectors' own ids, whether one vector's counters are all at least the other's |
| Vector.DominatesByOwnIds | lib/protocol/vector.go:82-94 | comparing at b's ids alone decides domination over every id |
| Vector.SameCountersBothWays | lib/protocol/vector.go:77-80 | two vectors have the same counters exactly when each dominates the other |
| Vector.Compare | lib/protocol/vector.go:77-100 | `Equal` iff same counters; `Greater`/`Lesser` iff strict domination; otherwise `ConcurrentGreater` or `ConcurrentLesser` as the tie-break decides |
| Vector.CompareReflexive | lib/protocol/vector.go:77-80 | a vector compares `Equal` to itself |
| Vector.CompareAntisymmetric | lib/protocol/vector.go:77-100 | with an antisymmetric tie-break, swapping the operands inverts the outcome |
| Vector.Equal | lib/protocol/vector.go:77-80 | true exactly when the two vectors have the same counters |
| Vector.LesserEqual | lib/protocol/vector.go:82-87 | true exactly when b dominates v (outcome `Lesser` or `Equal`) |
| Vector.GreaterEqual | lib/protocol/vector.go:89-94 | true exactly when v dominates b (outcome `Greater` or `Equal`) |
| Vector.Concurrent | lib/protocol/vector.go:96-100 | true exactly when neither dominates, so it excludes both `LesserEqual` and `GreaterEqual` |
| Message.FlagsAreIndependent | lib/protocol/message.go:24-42 | testing a single-bit flag reads only that bit: setting or clearing a different flag leaves it unchanged |
| Message.FlagsAreDistinctBits | lib/protocol/message.go:24-42 | the five flags are five distinct single bits |
| Message.FileInfo.IsDeleted | lib/protocol/message.go:24-26 | true exactly when the deleted bit is set |
| Message.FileInfo.IsInvalid | lib/protocol/message.go:28-30 | true exactly when the invalid bit is set |
| Message.FileInfo.IsDirectory | lib/protocol/message.go:32-34 | true exactly when the directory bit is set |
| Message.FileInfo.IsSymlink | lib/protocol/message.go:36-38 | true exactly when the symlink bit is set |
| Message.FileInfo.HasPermissionBits | lib/protocol/message.go:40-42 | true exactly when the no-permission-bits flag is clear |
| Message.FileInfo.FileLength | lib/protocol/message.go:44-49 | 128 for a directory or a deleted entry, the stored length otherwise |
| Message.FileInfo.FileName | lib/protocol/message.go:51-53 | the record's name |
| Message.FileInfoTruncated.IsDeleted | lib/protocol/message.go:60-62 | true exactly when the deleted bit is set |
| Message.FileInfoTruncated.IsInvalid | lib/protocol/message.go:64-66 | true exactly when the invalid bit is set |
| Message.FileInfoTruncated.IsDirectory | lib/protocol/message.go:68-70 | true exactly when the directory bit is set |
| Message.FileInfoTruncated.IsSymlink | lib/protocol/message.go:72-74 | true exactly when the symlink bit is set |
| Message.FileInfoTruncated.HasPermissionBits | lib/protocol/message.go:76-78 | true exactly when the no-permission-bits flag is clear |
| Message.FileInfoTruncated.FileLength | lib/protocol/message.go:80-85 | 128 for a directory or a deleted entry, the stored length otherwise |
| Message.FileInfoTruncated.FileName | lib/protocol/message.go:87-89 | the record's name |
| Message.TruncatedAgrees | lib/protocol/message.go:60-89 | with equal flags, length and name, the truncated record answers every shared query as the full one |
| Message.FileInfo.WinsConflict | lib/protocol/message.go:93-114 | live beats deleted; otherwise the strictly later modification wins; on equal times, wins exactly when the versions are concurrent and the tie-break favours this record |
| Message.LiveBeatsDeleted | lib/protocol/message.go:96-101 | when exactly one record is deleted, the live one wins and the deleted one does not |
| Message.LaterWins | lib/protocol/message.go:104-109 | with equal deletion status, the strictly later record wins and the earlier one does not, whatever the versions |
| Message.WinsConflictNeverBoth | lib/protocol/message.go:93-114 | with an antisymmetric tie-break, two records never both win against each other |
| Message.WinsConflictExactlyOne | lib/protocol/message.go:93-114 | exactly one record wins when deletion status differs, when times differ, or when the versions are concurrent |
| Message.WinsConflictOrderedVersions | lib/protocol/message.go:111-113 | with equal deletion status and times and non-concurrent versions, neither record wins |
| Message.BlockInfo.IsEmpty | lib/protocol/message.go:120-123 | true exactly when the length is the block size and the hash equals the zero-block digest, byte for byte |
| Message.EmptyBlockIsExact | lib/protocol/message.go:121-123 | changing an empty block's length or any byte of its hash makes it non-empty |
| Header.Masked | lib/protocol/header.go:36-38 | each field cut to its width lies in range, and cutting changes a header exactly when it is out of range |
| Header.EncodeHeader | lib/protocol/header.go:31-40 | bits 31-28, 27-16 and 15-8 hold the masked version, message ID and type; bits 7-1 are zero; bit 0 is the compression flag |
| Header.DecodeHeader | lib/protocol/header.go:42-49 | each field is read from its bits and lies within its width |
| Header.DecodeEncode | lib/protocol/header.go:31-49 | decoding an encoded header gives the masked header, and the header itself when in range |
| Header.EncodeMasks | lib/protocol/header.go:36-38 | encoding depends only on the masked fields |
| Header.VersionTwentyEncodesAsFour | lib/protocol/header.go:36 | version 20 encodes to the same word as version 4 |
| Header.EncodeDecode | lib/protocol/header.go:31-49 | re-encoding a decoded word gives it back exactly when bits 7-1 are zero |
| Header.PutUint32 | lib/protocol/header.go:22 | four bytes, each one fixed: bits 31-24, 23-16, 15-8 and 7-0 of the word, in that order |
| Header.Uint32 | lib/protocol/header.go:27 | the word whose bits 31-24, 23-16, 15-8 and 7-0 are the first four bytes, in that order |
| Header.BigEndianRoundTrip | lib/protocol/header.go:20-29 | reading back written bytes gives the word, and writing a read word gives the first four bytes |
| Header.MarshalRoundTrip | lib/protocol/header.go:14-29 | unmarshalling a marshalled header gives it back masked, and unchanged when in range |
| Header.WireLayout | lib/protocol/header.go:20-23 | on the wire, the version is the high nibble of byte 0, the message ID is the low nibble of byte 0 followed by byte 1, the type is byte 2, and byte 3 is 1 exactly when compressed (0 otherwise) |
| Header.MarshalTo | lib/protocol/header.go:20-24 | the first four bytes of the buffer become the big-endian encoded header, the rest are untouched, and no error is reported |
| Header.Marshal | lib/protocol/header.go:14-18 | exactly four bytes, the big-endian encoded header, which decode to the masked header; no error |
| Header.HeaderRef.Unmarshal | lib/protocol/header.go:26-29 | the header becomes the decoding of the first four bytes read big-endian, with every field in range; no error |

## Left out

- The `String` methods of `FileInfo`, `FileInfoTruncated` and `BlockInfo` only format text for logs.
- The SHA-256 digest of a zero block is computed by a crypto library. `BlockInfo.IsEmpty` takes that digest as a parameter.
- `HelloMessageMagic` and the generated XDR body codec are not part of this model.
- The body of `Compare` and the declaration of its ordering type are not part of this model. `Compare` is modelled by its pointwise meaning, and the concurrent tie-break is a parameter, so no tie-break rule is assumed.
- Vector.Update, Vector.Merge: the Go methods may change the caller's backing array in place, and `append` may reuse its capacity. The model treats vectors as values, so it does not capture when a caller's old vector is seen to change.
- Vector.Copy: the model states that the copy has the same counters, but not that its storage is separate from the original's, since values share no storage.
- The flag bits (`1<<12` to `1<<16`), the block size (128 KiB) and the shape of `FileInfo`/`BlockInfo` come from protocol.go, which is not part of this model. Every lemma about the flags uses only that they are distinct single bits.
- Header.MarshalTo, Header.HeaderRef.Unmarshal: a buffer shorter than four bytes makes Go panic. The model makes at least four bytes a precondition instead of modelling the panic.
- Concurrency: none of the modelled code shares state between goroutines.
