/** The entry format of DuckDB's write-ahead log: the closed set of entry
    tags, the check that tells a valid tag from an invalid one, and the
    fixed-width entry header (a one-byte tag followed by a 32-bit payload
    size) with its encoder and a decoder that inverts it.
 */
module WalFormat {
  import opened Bytes

  /** `wal_type_t`: the tag of a log entry is a single unsigned byte. */
  type WalType = uint8

  /** The reserved tag that no entry carries. */
  const INVALID: WalType := 0

  datatype Option<T> = None | Some(value: T)

  /** The named kinds of log entry. */
  datatype Kind =
    | DropTable
    | CreateTable
    | DropSchema
    | CreateSchema
    | InsertTuple
    | Query
    | WalFlush

  /** The tag value the log uses for each kind. */
  function Tag(k: Kind): (t: WalType)
    ensures t != INVALID
  {
    match k
    case DropTable => 1
    case CreateTable => 2
    case DropSchema => 3
    case CreateSchema => 4
    case InsertTuple => 5
    case Query => 6
    case WalFlush => 100
  }

  /** `WALEntry::TypeIsValid`: the flush marker, or a tag in the range
      from DROP_TABLE to QUERY. */
  predicate TypeIsValid(t: WalType)
    ensures TypeIsValid(t) ==> t != INVALID
  {
    t == Tag(WalFlush) || (Tag(DropTable) <= t && t <= Tag(Query))
  }

  /** The kind a tag names, if any. */
  function KindOf(t: WalType): (r: Option<Kind>)
    ensures r.Some? <==> TypeIsValid(t)
    ensures r.Some? ==> Tag(r.value) == t
  {
    if t == 1 then Some(DropTable)
    else if t == 2 then Some(CreateTable)
    else if t == 3 then Some(DropSchema)
    else if t == 4 then Some(CreateSchema)
    else if t == 5 then Some(InsertTuple)
    else if t == 6 then Some(Query)
    else if t == 100 then Some(WalFlush)
    else None
  }

  /** The valid tags are exactly 100 and 1 through 6. */
  lemma TypeIsValidValues(t: WalType)
    ensures TypeIsValid(t) <==> t == 100 || 1 <= t <= 6
  {
  }

  /** The reserved tag and every tag between the named ones or above the
      flush marker are rejected. */
  lemma TypeIsValidRejects(t: WalType)
    requires t == INVALID || 7 <= t <= 99 || 101 <= t
    ensures !TypeIsValid(t)
  {
  }

  /** A tag is valid exactly when it is the tag of a named kind. */
  lemma TypeIsValidIffNamed(t: WalType)
    ensures TypeIsValid(t) <==> exists k :: Tag(k) == t
  {
    if TypeIsValid(t) {
      assert Tag(KindOf(t).value) == t;
    }
  }

  /** Every named kind passes the check, and distinct kinds have distinct
      tags, so a tag identifies its kind. */
  lemma TagIsValidAndDistinct(k: Kind, k': Kind)
    ensures TypeIsValid(Tag(k))
    ensures Tag(k) == Tag(k') ==> k == k'
  {
  }

  /** Naming a kind by its tag and reading the tag back gives the kind. */
  lemma KindOfTag(k: Kind)
    ensures KindOf(Tag(k)) == Some(k)
  {
  }

  /** `WALEntry`: the header of one log entry, its tag (`WALEntry::type`)
      and the size of the payload that follows. */
  datatype WalEntry = WalEntry(tag: WalType, size: uint32)

  /** Bytes taken by the tag and by the size on disk. */
  const TAG_SIZE: nat := 1
  const SIZE_SIZE: nat := 4
  const HEADER_SIZE: nat := TAG_SIZE + SIZE_SIZE

  /** The bytes of a header as `WriteEntry` writes them: the tag byte first,
      then the four bytes of the size. This assumes that `Write<T>` appends
      exactly the `sizeof(T)` bytes of its value, the size little-endian. */
  function EncodeHeader(e: WalEntry): (bs: seq<uint8>)
    ensures |bs| == HEADER_SIZE
    ensures bs[0] == e.tag
    ensures FromLittleEndian(bs[TAG_SIZE..]) == e.size as nat
  {
    Pow256Four();
    var sizeBytes := ToLittleEndian(e.size as nat, SIZE_SIZE);
    FromToLittleEndian(e.size as nat, SIZE_SIZE);
    assert ([e.tag] + sizeBytes)[TAG_SIZE..] == sizeBytes;
    [e.tag] + sizeBytes
  }

  datatype DecodeError = CorruptHeader

  datatype Result<T> = Ok(value: T) | Err(error: DecodeError)

  /** Reads a tag byte and then a 32-bit size from the front of bs, giving
      the header and the bytes after it; fails when fewer bytes than a
      header remain. The tag is returned as read, valid or not. */
  function DecodeHeader(bs: seq<uint8>): (r: Result<(WalEntry, seq<uint8>)>)
    ensures r.Err? <==> |bs| < HEADER_SIZE
    ensures r.Ok? ==> r.value.0.tag == bs[0] && r.value.1 == bs[HEADER_SIZE..]
  {
    if |bs| < HEADER_SIZE then Err(CorruptHeader)
    else
      var size := FromLittleEndian(bs[TAG_SIZE..HEADER_SIZE]);
      Pow256Four();
      Ok((WalEntry(bs[0], size as uint32), bs[HEADER_SIZE..]))
  }

  /** Decoding an encoded header recovers the header and leaves whatever
      followed it untouched. */
  lemma DecodeEncodeHeader(e: WalEntry, rest: seq<uint8>)
    ensures DecodeHeader(EncodeHeader(e) + rest) == Ok((e, rest))
  {
    var bs := EncodeHeader(e) + rest;
    assert bs[TAG_SIZE..HEADER_SIZE] == EncodeHeader(e)[TAG_SIZE..];
  }

  /** Every run of at least five bytes starts with the encoding of the
      header it decodes to. */
  lemma EncodeDecodeHeader(bs: seq<uint8>)
    requires |bs| >= HEADER_SIZE
    ensures DecodeHeader(bs).Ok?
    ensures EncodeHeader(DecodeHeader(bs).value.0) + DecodeHeader(bs).value.1 == bs
  {
    var e := DecodeHeader(bs).value.0;
    var sizeBytes := bs[TAG_SIZE..HEADER_SIZE];
    ToFromLittleEndian(sizeBytes);
    assert EncodeHeader(e) == [bs[0]] + sizeBytes;
    assert bs == [bs[0]] + sizeBytes + bs[HEADER_SIZE..];
  }

  /** Two headers with the same bytes are the same header. */
  lemma EncodeHeaderInjective(e: WalEntry, e': WalEntry)
    requires EncodeHeader(e) == EncodeHeader(e')
    ensures e == e'
  {
    DecodeEncodeHeader(e, []);
    DecodeEncodeHeader(e', []);
  }
}
