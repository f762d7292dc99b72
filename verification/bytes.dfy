/** Byte-level primitives of the buffer classes: little-endian fixed-width
    fields, zero padding, sector alignment of a write cursor and of a read
    cursor, and positioned writes (`seek` followed by `write`). */
module Bytes {

  type byte = x: int | 0 <= x < 0x100
  type u16 = x: int | 0 <= x < 0x1_0000
  type u32 = x: int | 0 <= x < 0x1_0000_0000

  /** The alignment unit used everywhere in the container. */
  const SECTOR: nat := 2048

  function Zeros(n: nat): (z: seq<byte>)
    ensures |z| == n
    ensures forall i :: 0 <= i < n ==> z[i] == 0
  {
    seq(n, _ => 0)
  }

  /** `struct.pack("<H", x)` */
  function U16(x: u16): (bs: seq<byte>)
    ensures |bs| == 2
  {
    [x % 0x100, x / 0x100]
  }

  /** `struct.pack("<I", x)` */
  function U32(x: u32): (bs: seq<byte>)
    ensures |bs| == 4
  {
    [x % 0x100, (x / 0x100) % 0x100, (x / 0x1_0000) % 0x100, x / 0x100_0000]
  }

  /** `struct.unpack("<H", …)` of the two bytes at `at` */
  function GetU16(bs: seq<byte>, at: nat): u16
    requires at + 2 <= |bs|
  {
    bs[at] as int + 0x100 * bs[at + 1] as int
  }

  /** `struct.unpack("<I", …)` of the four bytes at `at` */
  function GetU32(bs: seq<byte>, at: nat): u32
    requires at + 4 <= |bs|
  {
    bs[at] as int + 0x100 * bs[at + 1] as int + 0x1_0000 * bs[at + 2] as int + 0x100_0000 * bs[at + 3] as int
  }

  /** `struct.unpack("<h", …)`: the same two bytes read as a two's-complement value. */
  function GetI16(bs: seq<byte>, at: nat): (v: int)
    requires at + 2 <= |bs|
    ensures -0x8000 <= v < 0x8000
    ensures v >= 0 <==> bs[at + 1] < 0x80
  {
    var u := GetU16(bs, at);
    if u < 0x8000 then u else u - 0x1_0000
  }

  lemma U16RoundTrip(x: u16, pre: seq<byte>, post: seq<byte>)
    ensures GetU16(pre + U16(x) + post, |pre|) == x
  {
    var bs := pre + U16(x) + post;
    assert bs[|pre|] == x % 0x100 && bs[|pre| + 1] == x / 0x100;
  }

  /** A value below 0x8000 packed with "<H" reads back unchanged with "<h";
      this is how the stage sub-header's two signed fields are written. */
  lemma I16RoundTrip(x: u16, pre: seq<byte>, post: seq<byte>)
    requires x < 0x8000
    ensures GetI16(pre + U16(x) + post, |pre|) == x
  {
    U16RoundTrip(x, pre, post);
  }

  lemma U32RoundTrip(x: u32, pre: seq<byte>, post: seq<byte>)
    ensures GetU32(pre + U32(x) + post, |pre|) == x
  {
    var bs := pre + U32(x) + post;
    var p := |pre|;
    var a := x / 0x100;
    var b := a / 0x100;
    var c := b / 0x100;
    assert x == x % 0x100 + 0x100 * a;
    assert a == a % 0x100 + 0x100 * b;
    assert b == b % 0x100 + 0x100 * c;
    assert b == x / 0x1_0000 && c == x / 0x100_0000;
    assert bs[p] == x % 0x100 && bs[p + 1] == a % 0x100;
    assert bs[p + 2] == b % 0x100 && bs[p + 3] == c;
  }

  /** `((cur + (n - 1)) // n) * n`, the target of both `align` methods. */
  function AlignUp(cur: nat, n: nat): (r: nat)
    requires n > 0
    ensures r >= cur && r % n == 0 && r - cur < n
    ensures forall m: nat :: m >= cur && m % n == 0 ==> m >= r
  {
    var r := ((cur + (n - 1)) / n) * n;
    LeastMultiple(cur, n, r);
    r
  }

  /** Division by a positive `n` has exactly one quotient and remainder. */
  lemma DivModUnique(a: int, n: nat, q: int, r: int)
    requires n > 0 && a == q * n + r && 0 <= r < n
    ensures a / n == q && a % n == r
  {
    var q', r' := a / n, a % n;
    assert a == q' * n + r' && 0 <= r' < n;
    if q > q' {
      assert (q - q') * n == r' - r;
      assert (q - q') * n >= n by { MulGrows(q - q', n); }
    } else if q < q' {
      assert (q' - q) * n == r - r';
      assert (q' - q) * n >= n by { MulGrows(q' - q, n); }
    }
  }

  lemma MulCancel(a: int, b: int, n: nat)
    requires n > 0 && a * n > b * n
    ensures a > b
  {
    if a <= b {
      MulMono(b, a, n);
    }
  }

  lemma MulMono(a: int, b: int, n: nat)
    requires a >= b
    ensures a * n >= b * n
  {
    assert a * n - b * n == (a - b) * n;
  }

  lemma MulGrows(k: int, n: nat)
    requires k >= 1
    ensures k * n >= n
  {
  }

  lemma LeastMultiple(cur: nat, n: nat, r: nat)
    requires n > 0 && r == ((cur + (n - 1)) / n) * n
    ensures r >= cur && r % n == 0 && r - cur < n
    ensures forall m: nat :: m >= cur && m % n == 0 ==> m >= r
  {
    var q := (cur + (n - 1)) / n;
    var rem := (cur + (n - 1)) % n;
    assert cur + (n - 1) == q * n + rem;
    DivModUnique(r, n, q, 0);
    forall m: nat | m >= cur && m % n == 0
      ensures m >= r
    {
      var k := m / n;
      assert m == k * n + 0;
      assert k * n > (q - 1) * n;
      MulCancel(k, q - 1, n);
      MulMono(k, q, n);
    }
  }

  /** Aligning a cursor that already sits on a boundary does not move it. */
  lemma AlignedIsFixed(cur: nat, n: nat)
    requires n > 0 && cur % n == 0
    ensures AlignUp(cur, n) == cur
  {
  }

  /** Moving a cursor by whole units moves its aligned target by the same amount. */
  lemma AlignShift(base: nat, x: nat, n: nat)
    requires n > 0 && base % n == 0
    ensures AlignUp(base + x, n) == base + AlignUp(x, n)
  {
    var a := AlignUp(base + x, n);
    var b := base + AlignUp(x, n);
    assert b % n == 0 by { ModSum(base, AlignUp(x, n), n); }
    assert (a - base) % n == 0 by { ModDiff(a, base, n); }
  }

  lemma ModSum(a: nat, b: nat, n: nat)
    requires n > 0 && a % n == 0 && b % n == 0
    ensures (a + b) % n == 0
  {
    assert a == (a / n) * n && b == (b / n) * n;
    assert a + b == (a / n + b / n) * n + 0;
    DivModUnique(a + b, n, a / n + b / n, 0);
  }

  lemma ModDiff(a: nat, b: nat, n: nat)
    requires n > 0 && a >= b && a % n == 0 && b % n == 0
    ensures (a - b) % n == 0
  {
    assert a == (a / n) * n && b == (b / n) * n;
    assert a - b == (a / n - b / n) * n + 0;
    DivModUnique(a - b, n, a / n - b / n, 0);
  }

  /** The zero bytes `BufWriter.align(n)` appends when the cursor is at `cur`. */
  function PadAt(cur: nat, n: nat): (pad: seq<byte>)
    requires n > 0
    ensures |pad| < n && (cur + |pad|) % n == 0
    ensures forall i :: 0 <= i < |pad| ==> pad[i] == 0
    ensures cur % n == 0 ==> pad == []
  {
    Zeros(AlignUp(cur, n) - cur)
  }

  /** `BufWriter.align(n)` on a writer whose cursor is at the end of `out`. */
  function WriterAlign(out: seq<byte>, n: nat): (r: seq<byte>)
    requires n > 0
    ensures |r| % n == 0 && |out| <= |r| < |out| + n
    ensures r[..|out|] == out
    ensures forall i :: |out| <= i < |r| ==> r[i] == 0
    ensures |out| % n == 0 ==> r == out
  {
    out + PadAt(|out|, n)
  }

  /** `file.seek(at); file.write(data)` on a file whose contents are `buf`:
      the gap past the end reads as zeros, bytes past the written range keep
      their value, and writing nothing never extends the file. */
  function WriteAt(buf: seq<byte>, at: nat, data: seq<byte>): (r: seq<byte>)
    ensures |r| >= |buf|
    ensures |data| == 0 ==> r == buf
    ensures |data| > 0 ==> |r| == if at + |data| > |buf| then at + |data| else |buf|
    ensures |data| > 0 ==> r[at..at + |data|] == data
    ensures forall i :: 0 <= i < |buf| && (i < at || at + |data| <= i) ==> r[i] == buf[i]
    ensures forall i :: |buf| <= i < at && i < |r| ==> r[i] == 0
  {
    if |data| == 0 then buf
    else if at <= |buf| then
      buf[..at] + data + (if at + |data| < |buf| then buf[at + |data|..] else [])
    else
      buf + Zeros(at - |buf|) + data
  }

  /** `file.read(n)` at cursor `pos`: the bytes returned and the new cursor.
      A read at or beyond the end returns nothing and leaves the cursor where
      it was; a read that runs past the end is short; `n == -1` reads to the
      end. The file object refuses any smaller `n`, so callers check it. */
  function Read(buf: seq<byte>, pos: nat, n: int): (r: (seq<byte>, nat))
    requires n >= -1
    ensures pos >= |buf| ==> r == ([], pos)
    ensures 0 <= n && pos + n <= |buf| ==> r == (buf[pos..pos + n], pos + n)
    ensures pos < |buf| && (n == -1 || pos + n > |buf|) ==> r == (buf[pos..], |buf|)
  {
    if 0 <= n && pos + n <= |buf| then (buf[pos..pos + n], pos + n)
    else if pos >= |buf| then ([], pos)
    else (buf[pos..], |buf|)
  }

  /** `BufReader.align(n)`: the cursor after reading up to the next boundary. */
  function ReaderAlign(buf: seq<byte>, pos: nat, n: nat): (p: nat)
    requires n > 0
    ensures AlignUp(pos, n) <= |buf| ==> p == AlignUp(pos, n)
    ensures pos % n == 0 ==> p == pos
    ensures pos <= p <= AlignUp(pos, n)
  {
    Read(buf, pos, AlignUp(pos, n) - pos).1
  }

  /** `s` occurs in `buf` at offset `pos`. */
  predicate At(buf: seq<byte>, pos: nat, s: seq<byte>)
  {
    pos + |s| <= |buf| && buf[pos..pos + |s|] == s
  }

  lemma AtSplit(buf: seq<byte>, pos: nat, a: seq<byte>, b: seq<byte>)
    requires At(buf, pos, a + b)
    ensures At(buf, pos, a) && At(buf, pos + |a|, b)
  {
    assert buf[pos..pos + |a|] == (a + b)[..|a|];
    assert buf[pos + |a|..pos + |a| + |b|] == (a + b)[|a|..];
  }

  lemma U32At(buf: seq<byte>, pos: nat, x: u32)
    requires At(buf, pos, U32(x))
    ensures GetU32(buf, pos) == x
  {
    U32RoundTrip(x, buf[..pos], buf[pos + 4..]);
    assert buf == buf[..pos] + U32(x) + buf[pos + 4..];
  }

  lemma AtConcat(pre: seq<byte>, s: seq<byte>, post: seq<byte>)
    ensures At(pre + s + post, |pre|, s)
  {
    assert (pre + s + post)[|pre|..|pre| + |s|] == s;
  }
}
