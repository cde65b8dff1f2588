# DuckDB write-ahead log: entry header and writer state

A Dafny model of the entry format and writer state that DuckDB's
write-ahead log header (`src/include/storage/write_ahead_log.hpp`) defines.

- `Bytes` (bytes.dfy): the `uint8_t` and `uint32_t` value ranges and a
  little-endian byte encoding of fixed-width numbers, with both round trips.
- `WalFormat` (wal_format.dfy): the entry tags of `WALEntry` as an
  enumeration `Kind` with its tag values, `INVALID` as the reserved tag 0,
  `TypeIsValid` as the C++ header defines it, and the entry header
  `WalEntry` (tag and 32-bit payload size). `EncodeHeader` gives the five
  bytes `WriteEntry` writes under the assumption below: the tag byte, then
  the four size bytes. `DecodeHeader` reads them back and fails with
  `CorruptHeader` when fewer than five bytes are left.
  The decoder is not in the header file. It is there to state what the
  encoding preserves.
- `WalWriter` (wal_writer.dfy): class `WriteAheadLog` with the
  `initialized` flag, whether `wal_file` is open, and the bytes written to
  the log file as an in-memory sequence. The constructor, `IsInitialized`
  and both `WriteEntry` overloads are modelled. Dafny has no overloading,
  so `WriteEntry(type, size)` is `WriteEntryFields` and
  `WriteEntry(WALEntry)` is `WriteEntry`.

Assumption: `WriteEntry` calls `Write<wal_type_t>` and then
`Write<uint32_t>`, whose body is not part of this model. The model
assumes that each call appends exactly the 1 and 4 bytes of its value,
without padding, the size in little-endian order (least significant byte
first), and that it always succeeds.

## Model

| member | source | states |
|---|---|---|
| `WalFormat.Tag` | src/include/storage/write_ahead_log.hpp:34-41 | every named kind has a tag different from the reserved `INVALID` (0) |
| `WalFormat.TypeIsValid` | src/include/storage/write_ahead_log.hpp:43-46 | the tag is `WAL_FLUSH` or lies in `DROP_TABLE`..`QUERY`; a valid tag is never `INVALID` (characterised further by `TypeIsValidValues` and `TypeIsValidIffNamed`) |
| `WalFormat.KindOf` | src/include/storage/write_ahead_log.hpp:35-46 | a tag names a kind exactly when `TypeIsValid` accepts it, and then the kind's tag is that tag |
| `WalFormat.TypeIsValidValues` | src/include/storage/write_ahead_log.hpp:43-46 | `TypeIsValid(t)` holds exactly when `t` is 100 or lies in 1..6 |
| `WalFormat.TypeIsValidRejects` | src/include/storage/write_ahead_log.hpp:34-46 | tag 0, every tag in 7..99 and every tag in 101..255 is rejected |
| `WalFormat.TypeIsValidIffNamed` | src/include/storage/write_ahead_log.hpp:35-46 | a tag is valid if and only if it is the tag of one of the seven named kinds |
| `WalFormat.TagIsValidAndDistinct` | src/include/storage/write_ahead_log.hpp:35-46 | every named kind passes `TypeIsValid`, and two kinds with the same tag are the same kind |
| `WalFormat.KindOfTag` | src/include/storage/write_ahead_log.hpp:35-41 | reading back the tag of a kind gives that kind |
| `WalFormat.EncodeHeader` | src/include/storage/write_ahead_log.hpp:92-96 | a header is 5 bytes: the tag byte first, then 4 bytes denoting the size |
| `WalFormat.DecodeHeader` | src/include/storage/write_ahead_log.hpp:48-49 | reading a header fails exactly when fewer than 5 bytes remain; otherwise the tag is the first byte and the rest starts after byte 5 |
| `WalFormat.DecodeEncodeHeader` | src/include/storage/write_ahead_log.hpp:92-96 | reading a tag byte and a 32-bit size from an encoded header recovers `(type, size)` and leaves the following bytes untouched |
| `WalFormat.EncodeDecodeHeader` | src/include/storage/write_ahead_log.hpp:48-49 | every run of at least 5 bytes is the encoding of the header it reads as, followed by the rest |
| `WalFormat.EncodeHeaderInjective` | src/include/storage/write_ahead_log.hpp:48-49 | distinct headers have distinct encodings |
| `Bytes.Pow256Four` | src/include/storage/write_ahead_log.hpp:49 | four bytes hold exactly the 2^32 values of a `uint32_t` |
| `Bytes.FromToLittleEndian` | src/include/storage/write_ahead_log.hpp:95 | reading back the bytes written for a number gives that number |
| `Bytes.ToFromLittleEndian` | src/include/storage/write_ahead_log.hpp:95 | every byte sequence is the encoding of the number it denotes |
| `WalWriter.WriteAheadLog.constructor` | src/include/storage/write_ahead_log.hpp:63-64 | a new log is not initialized, has no open file and holds no bytes |
| `WalWriter.WriteAheadLog.IsInitialized` | src/include/storage/write_ahead_log.hpp:67 | returns the `initialized` flag and changes no state |
| `WalWriter.WriteAheadLog.WriteEntryFields` | src/include/storage/write_ahead_log.hpp:92-96 | appends the tag byte and then the size bytes: the new log is the old log followed by the 5 header bytes, earlier bytes are unchanged, the added bytes read back as `(type, size)`, and nothing but the log changes |
| `WalWriter.WriteAheadLog.WriteEntry` | src/include/storage/write_ahead_log.hpp:97 | appends exactly the bytes `WriteEntryFields(entry.type, entry.size)` appends |

## Left out

- Bodies of `Replay`, `Initialize`, `Flush`, `WriteCreateTable`, `WriteDropTable`, `WriteCreateSchema`, `WriteDropSchema`, `WriteInsert`, `WriteQuery`, `WriteSize`, `WriteString` and `WriteData`: they are defined in `src/storage/write_ahead_log.cpp`, which is not part of this model, so their behaviour is not modelled. As a result no modelled operation opens the file or sets `initialized`.
- The template `Write<T>` is modelled only for the two calls in `WriteEntry` and only by the assumption above: for `wal_type_t` and `uint32_t` it appends the value's 1 and 4 bytes (the size little-endian) and always succeeds. A failed or partial write (an I/O error, a torn tail) is not modelled.
- The `sz` counter that `WriteEntry` passes to `Write<T>`: it starts at `sizeof(WALEntry)` (8 on common ABIs because of padding, while the modelled header is 5 bytes), and what `Write<T>` does with it is defined in the missing `.cpp` file.
- WalWriter.WriteAheadLog.WriteEntryFields: appends to the log whether or not `wal_file` is open, because the C++ header shows no check of `wal_file` before the two `Write<T>` calls and writing through a null handle is undefined behaviour in C++.
- File I/O through `FILE *wal_file` (`fwrite`, `fflush`, forcing data to stable storage): operating-system calls. The file is the in-memory byte sequence `log`.
- The `DuckDB &database` reference and the forward-declared `Catalog`, `SchemaCatalogEntry`, `TableCatalogEntry`, `Transaction` and `TransactionManager`: external collaborators with no behaviour in this file.
- `WALEntryData` and the payload bytes it owns, including `DataChunk` serialization: payload formats are defined in the missing `.cpp` file.
- The `WAL_FILE` file-name constant, the destructor and resource release.
