/** Encoding detection from magic bytes (crates/elu-store/src/magic.rs). */
module Magic {
  import opened Wrappers

  newtype Byte = b: int | 0 <= b < 256
  type Bytes = seq<Byte>

  datatype BlobEncoding = Gzip | Zstd | PlainTar

  /** How many leading bytes the store looks at before it picks a decoder. */
  const PEEK_LENGTH: nat := 512

  function SniffEncoding(buf: Bytes): (r: Option<BlobEncoding>)
  {
    if |buf| >= 2 && buf[..2] == [0x1f, 0x8b] then Some(Gzip)
    else if |buf| >= 4 && buf[..4] == [0x28, 0xb5, 0x2f, 0xfd] then Some(Zstd)
    else if |buf| >= 262 && buf[257..262] == [0x75, 0x73, 0x74, 0x61, 0x72] then Some(PlainTar)
    else None
  }

  function Peek(bytes: Bytes): Bytes {
    if |bytes| <= PEEK_LENGTH then bytes else bytes[..PEEK_LENGTH]
  }

  /** put_blob sniffs a 512-byte prefix and fsck sniffs the whole blob: both see the same encoding. */
  lemma PeekSniffsAlike(bytes: Bytes)
    ensures SniffEncoding(Peek(bytes)) == SniffEncoding(bytes)
  {
    if |bytes| > PEEK_LENGTH {
      var p := bytes[..PEEK_LENGTH];
      assert p[..2] == bytes[..2] && p[..4] == bytes[..4];
      assert p[257..262] == bytes[257..262];
    }
  }
}
