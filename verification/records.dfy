/** The 8-byte entry record of a stage header: name code (`<H`), section
    tag (`<B`), extension tag (`<B`) and value (`<I`), little-endian. */
module Records {
  import opened Bytes

  datatype Record = Record(code: u16, tag: byte, ext: byte, value: u32)

  const TAG_CACHE: byte := 'c' as byte
  const TAG_NOCACHE: byte := 'n' as byte
  const TAG_RESIDENT: byte := 'r' as byte
  const TAG_SOUND: byte := 's' as byte

  /** The extension tag of a cache-run trailer. */
  const TRAILER_EXT: byte := 0xFF

  /** The record that closes a cache run and carries the run's end offset. */
  function Trailer(total: u32): Record
  {
    Record(0, TAG_CACHE, TRAILER_EXT, total)
  }

  function RecordBytes(r: Record): (bs: seq<byte>)
    ensures |bs| == 8
  {
    U16(r.code) + [r.tag, r.ext] + U32(r.value)
  }

  function Serialize(rs: seq<Record>): (bs: seq<byte>)
    ensures |bs| == 8 * |rs|
  {
    if rs == [] then [] else RecordBytes(rs[0]) + Serialize(rs[1..])
  }

  /** The record `unpack_stage` reads at offset `at`. */
  function RecordAt(buf: seq<byte>, at: nat): Record
    requires at + 8 <= |buf|
  {
    Record(GetU16(buf, at), buf[at + 2], buf[at + 3], GetU32(buf, at + 4))
  }

  /** Reading a written record gives the record back. */
  lemma RecordRoundTrip(r: Record, buf: seq<byte>, at: nat)
    requires At(buf, at, RecordBytes(r))
    ensures RecordAt(buf, at) == r
  {
    var bs := RecordBytes(r);
    var pre, post := buf[..at], buf[at + 8..];
    assert buf == pre + bs + post;
    assert buf == pre + U16(r.code) + ([r.tag, r.ext] + U32(r.value) + post);
    U16RoundTrip(r.code, pre, [r.tag, r.ext] + U32(r.value) + post);
    assert buf == (pre + U16(r.code) + [r.tag, r.ext]) + U32(r.value) + post;
    U32RoundTrip(r.value, pre + U16(r.code) + [r.tag, r.ext], post);
  }

  /** The `k`-th record of a serialized run is found 8·k bytes in. */
  lemma {:induction false} SerializedAt(rs: seq<Record>, buf: seq<byte>, pos: nat, k: nat)
    requires At(buf, pos, Serialize(rs)) && k < |rs|
    ensures RecordAt(buf, pos + 8 * k) == rs[k]
    decreases k
  {
    AtSplit(buf, pos, RecordBytes(rs[0]), Serialize(rs[1..]));
    if k == 0 {
      RecordRoundTrip(rs[0], buf, pos);
    } else {
      SerializedAt(rs[1..], buf, pos + 8, k - 1);
    }
  }

  lemma SerializeAppend(a: seq<Record>, b: seq<Record>)
    ensures Serialize(a + b) == Serialize(a) + Serialize(b)
  {
    if a != [] {
      assert (a + b)[1..] == a[1..] + b;
      SerializeAppend(a[1..], b);
    } else {
      assert a + b == b;
    }
  }
}
