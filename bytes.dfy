/**
  Byte sequences, the big-endian unsigned 32-bit integer of `struct.pack('>I', n)` /
  `struct.unpack('>I', b)`, and the space padding of `bytes.ljust`.
 */
module Bytes {
  type byte = b: int | 0 <= b < 256

  /** 2^32: `struct.pack('>I', n)` accepts exactly the n below this bound. */
  const Two32: nat := 0x1_0000_0000

  /** The ASCII space that `bytes.ljust` pads with by default. */
  const Space: byte := 0x20

  /** `struct.pack('>I', n)`: four bytes, most significant first. */
  function Be32(n: nat): (r: seq<byte>)
    requires n < Two32
    ensures |r| == 4
  {
    [n / 0x100_0000, (n / 0x1_0000) % 0x100, (n / 0x100) % 0x100, n % 0x100]
  }

  /** `struct.unpack('>I', b)[0]` for a four-byte `b`. */
  function Be32Value(b: seq<byte>): (n: nat)
    requires |b| == 4
    ensures n < Two32
  {
    b[0] as int * 0x100_0000 + b[1] as int * 0x1_0000 + b[2] as int * 0x100 + b[3] as int
  }

  lemma DivMod256(q: int, r: int)
    requires 0 <= q && 0 <= r < 0x100
    ensures (q * 0x100 + r) / 0x100 == q && (q * 0x100 + r) % 0x100 == r
  {
  }

  /** Unpacking a packed length gives the length back. */
  lemma Be32ValueOfBe32(n: nat)
    requires n < Two32
    ensures Be32Value(Be32(n)) == n
  {
    var b := Be32(n);
    var n1 := n / 0x100;
    var n2 := n1 / 0x100;
    assert n == n1 * 0x100 + n % 0x100;
    assert n1 == n2 * 0x100 + n1 % 0x100;
    assert n2 == (n2 / 0x100) * 0x100 + n2 % 0x100;
    assert n / 0x1_0000 == n2;
    assert n / 0x100_0000 == n2 / 0x100;
  }

  /** Packing an unpacked header gives the same four bytes back. */
  lemma Be32OfBe32Value(b: seq<byte>)
    requires |b| == 4
    ensures Be32(Be32Value(b)) == b
  {
    var n := Be32Value(b);
    var b0, b1, b2, b3 := b[0] as int, b[1] as int, b[2] as int, b[3] as int;
    var n2 := b0 * 0x100 + b1;
    var n1 := n2 * 0x100 + b2;
    assert n == n1 * 0x100 + b3;
    DivMod256(n1, b3);
    DivMod256(n2, b2);
    DivMod256(b0, b1);
    assert n / 0x1_0000 == n2;
    assert n / 0x100_0000 == b[0];
  }

  /** Packing is injective: two lengths with the same header are equal. */
  lemma Be32Injective(m: nat, n: nat)
    requires m < Two32 && n < Two32
    requires Be32(m) == Be32(n)
    ensures m == n
  {
    Be32ValueOfBe32(m);
    Be32ValueOfBe32(n);
  }

  function Max(a: nat, b: nat): nat { if a < b then b else a }

  /**
    `b.ljust(width)`: pads with spaces on the right up to `width` bytes and leaves a
    sequence that is already at least `width` long as it is (it never truncates).
   */
  function LJust(b: seq<byte>, width: nat): (r: seq<byte>)
    ensures |r| == Max(|b|, width)
    ensures r[..|b|] == b
    ensures forall i | |b| <= i < |r| :: r[i] == Space
  {
    if |b| >= width then b else b + seq(width - |b|, _ => Space)
  }

  /** Removes the trailing spaces that `LJust` may have added. */
  function TrimPadding(b: seq<byte>): (r: seq<byte>)
    ensures |r| <= |b| && r == b[..|r|]
    ensures forall i | |r| <= i < |b| :: b[i] == Space
    ensures r == [] || r[|r| - 1] != Space
  {
    if b != [] && b[|b| - 1] == Space then TrimPadding(b[..|b| - 1]) else b
  }

  /** Padding is undone by trimming when the padded bytes do not end in a space. */
  lemma {:induction false} TrimPaddingOfLJust(b: seq<byte>, width: nat)
    requires b == [] || b[|b| - 1] != Space
    ensures TrimPadding(LJust(b, width)) == b
  {
    var r := LJust(b, width);
    TrimPaddingUnique(r, b);
  }

  /* Any prefix that ends in a non-space and is followed only by spaces is the trimmed one. */
  lemma {:induction false} TrimPaddingUnique(r: seq<byte>, b: seq<byte>)
    requires |b| <= |r| && r[..|b|] == b
    requires b == [] || b[|b| - 1] != Space
    requires forall i | |b| <= i < |r| :: r[i] == Space
    ensures TrimPadding(r) == b
    decreases |r|
  {
    if |r| > |b| {
      assert r[..|r| - 1][..|b|] == b;
      TrimPaddingUnique(r[..|r| - 1], b);
    } else {
      assert r == b;
    }
  }
}
