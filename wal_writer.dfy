/** The writer state of DuckDB's write-ahead log and the part of its write
    path the header defines: emitting an entry header.

    The log file is modelled as the sequence of bytes written through the
    file handle; the handle itself is modelled by whether it is open.
 */
module WalWriter {
  import opened Bytes
  import opened WalFormat

  class WriteAheadLog {
    /** Set once the log has been initialized for appending. */
    var initialized: bool
    /** Whether `wal_file` refers to an open file (it is null otherwise). */
    var walFileOpen: bool
    /** The bytes appended to the log file, in the order written. */
    var log: seq<uint8>

    /** A new log is not initialized, has no open file and has written
        nothing. */
    constructor ()
      ensures !initialized && !walFileOpen
      ensures log == []
    {
      initialized := false;
      walFileOpen := false;
      log := [];
    }

    /** Reports whether the log has been initialized, changing nothing. */
    method IsInitialized() returns (r: bool)
      ensures r == initialized
    {
      r := initialized;
    }

    /** `WriteEntry(type, size)`: appends the tag byte and then the four
        bytes of the size. Earlier bytes stay as they were, and the bytes
        added decode to the header just written. */
    method WriteEntryFields(tag: WalType, size: uint32)
      modifies this`log
      ensures log == old(log) + EncodeHeader(WalEntry(tag, size))
      ensures |log| == |old(log)| + HEADER_SIZE && log[..|old(log)|] == old(log)
      ensures DecodeHeader(log[|old(log)|..]) == Ok((WalEntry(tag, size), []))
    {
      Pow256Four();
      log := log + [tag];
      log := log + ToLittleEndian(size as nat, SIZE_SIZE);
      assert log == old(log) + EncodeHeader(WalEntry(tag, size));
      assert log[|old(log)|..] == EncodeHeader(WalEntry(tag, size)) + [];
      DecodeEncodeHeader(WalEntry(tag, size), []);
    }

    /** `WriteEntry(entry)`: the same bytes as writing the entry's tag and
        size. */
    method WriteEntry(entry: WalEntry)
      modifies this`log
      ensures log == old(log) + EncodeHeader(WalEntry(entry.tag, entry.size))
    {
      WriteEntryFields(entry.tag, entry.size);
    }
  }
}
