/** `strcode`: the 16-bit rolling checksum that stands in for a file name in
    an entry record. It is computed over the name's EUC-JP bytes; the
    encoding itself is not modelled, so the functions here take the bytes. */
module NameCode {
  import opened Bytes

  /** `(code >> 11) | (code << 5)` masked to 16 bits: the two shifted
      halves occupy disjoint bits, so the `|` is a sum. */
  function Rotl5(code: u16): u16
  {
    (code * 0x20 + code / 0x800) % 0x1_0000
  }

  /** Rotating right by five bits, the inverse of `Rotl5`. */
  function Rotr5(code: u16): u16
  {
    code / 0x20 + (code % 0x20) * 0x800
  }

  /** One turn of the loop: rotate, add the byte, keep 16 bits. */
  function Step(code: u16, b: byte): u16
  {
    (Rotl5(code) + b) % 0x1_0000
  }

  /** The rotation loses no information: the five bits shifted out at the
      top come back in at the bottom. */
  lemma RotateInverse(code: u16)
    ensures Rotr5(Rotl5(code)) == code
    ensures Rotl5(code) % 0x20 == code / 0x800
  {
    var hi := code / 0x800;
    var lo := code % 0x800;
    assert code == hi * 0x800 + lo;
    assert code * 0x20 + hi == hi * 0x1_0000 + (lo * 0x20 + hi);
    assert lo * 0x20 + hi < 0x1_0000;
    assert Rotl5(code) == lo * 0x20 + hi;
    assert (lo * 0x20 + hi) / 0x20 == lo;
    assert (lo * 0x20 + hi) % 0x20 == hi;
  }

  /** The loop of `strcode` as a left fold starting from `acc`. */
  function Fold(acc: u16, bs: seq<byte>): u16
    decreases |bs|
  {
    if bs == [] then acc else Fold(Step(acc, bs[0]), bs[1..])
  }

  /** `strcode` of an already-encoded name. */
  function StrCode(bs: seq<byte>): (code: u16)
    ensures bs == [] ==> code == 0
  {
    Fold(0, bs)
  }

  /** Folding over a concatenation folds over the second part from where the
      first part left off. */
  lemma {:induction false} FoldAppend(acc: u16, a: seq<byte>, b: seq<byte>)
    ensures Fold(acc, a + b) == Fold(Fold(acc, a), b)
    decreases |a|
  {
    if a != [] {
      assert (a + b)[0] == a[0] && (a + b)[1..] == a[1..] + b;
      FoldAppend(Step(acc, a[0]), a[1..], b);
    } else {
      assert a + b == b;
    }
  }

  /** Appending one byte applies one more `Step`. */
  lemma StrCodeSnoc(bs: seq<byte>, b: byte)
    ensures StrCode(bs + [b]) == Step(StrCode(bs), b)
  {
    FoldAppend(0, bs, [b]);
    assert [b][1..] == [];
  }

  /** A one-byte name's code is that byte. */
  lemma StrCodeSingle(b: byte)
    ensures StrCode([b]) == b
  {
    assert [b][1..] == [];
    assert Fold(0, [b]) == Fold(Step(0, b), []);
  }

  /** The loop as `strcode` runs it. */
  method ComputeStrCode(bs: seq<byte>) returns (code: u16)
    ensures code == StrCode(bs)
  {
    code := 0;
    var i := 0;
    while i < |bs|
      invariant 0 <= i <= |bs|
      invariant code == StrCode(bs[..i])
    {
      StrCodeSnoc(bs[..i], bs[i]);
      assert bs[..i + 1] == bs[..i] + [bs[i]];
      code := Step(code, bs[i]);
      i := i + 1;
    }
    assert bs[..i] == bs;
  }
}
