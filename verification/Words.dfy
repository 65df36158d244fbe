/** Machine integers and raw memory, as the C code of nfsdump2 sees them. */
module Words {

  const TWO31 := 0x8000_0000
  const TWO32 := 0x1_0000_0000

  type byte = x: int | 0 <= x < 256
  type uint16 = x: int | 0 <= x < 0x1_0000
  type uint32 = x: int | 0 <= x < TWO32

  /** The conversion to `u_int32_t`: everything is taken modulo 2^32. */
  function Wrap(x: int): uint32 {
    x % TWO32
  }

  /** The conversion from `u_int32_t` to `int`. */
  function Signed(x: uint32): int {
    if x < TWO31 then x else x - TWO32
  }

  /** The most significant byte first. */
  function WordOf(b0: byte, b1: byte, b2: byte, b3: byte): uint32 {
    b0 * 0x100_0000 + b1 * 0x1_0000 + b2 * 0x100 + b3
  }

  /** The four bytes of a word, most significant first. */
  function BytesOf(w: uint32): (s: seq<byte>)
    ensures |s| == 4 && WordOf(s[0], s[1], s[2], s[3]) == w
  {
    var (hi, lo) := (w / 0x1_0000, w % 0x1_0000);
    [hi / 0x100, hi % 0x100, lo / 0x100, lo % 0x100]
  }

  /** Wrap is the one value in range that differs by a multiple of 2^32. */
  lemma WrapMeaning(x: int, y: uint32, k: int)
    requires x == y + k * 4294967296
    ensures Wrap(x) == y
  {
  }

  /** Signed is the one value in the range of an `int` that has the same bits. */
  lemma SignedMeaning(x: uint32)
    ensures -2147483648 <= Signed(x) <= 2147483647
    ensures Signed(x) == x || Signed(x) == x - 4294967296
  {
  }

  /** The bytes of a word are its digits to the base 256, the most significant first. */
  lemma BigEndian(w: uint32)
    ensures var a: int, b: int, c: int, d: int := BytesOf(w)[0], BytesOf(w)[1], BytesOf(w)[2], BytesOf(w)[3];
            a * 16777216 + b * 65536 + c * 256 + d == w
  {
  }

  /**
   * A block of memory behind a C pointer. Reads outside the block are not
   * trapped: they give whatever memory holds there, which `beyond` stands for.
   * Every result of this project holds for every `beyond`.
   */
  datatype Mem = Mem(bytes: seq<byte>, beyond: int -> byte) {
    function At(i: int): byte {
      if 0 <= i < |bytes| then bytes[i] else beyond(i)
    }

    /** `ntohl (*(u_int32_t *) (pp + i))` */
    function Word(i: int): uint32 {
      WordOf(At(i), At(i + 1), At(i + 2), At(i + 3))
    }

    /** The `n` bytes that a `memcpy` starting at offset `i` reads. */
    function Slice(i: int, n: nat): (s: seq<byte>)
      ensures |s| == n
      ensures forall j :: 0 <= j < n ==> s[j] == At(i + j)
    {
      seq<byte>(n, j requires 0 <= j < n => At(i + j))
    }
  }

  /** Writing `src` over the part of a block that starts at `off`. */
  function Overwrite(block: seq<byte>, off: nat, src: seq<byte>): (r: seq<byte>)
    requires off + |src| <= |block|
    ensures |r| == |block|
    ensures r[..off] == block[..off]
    ensures r[off..off + |src|] == src
    ensures r[off + |src|..] == block[off + |src|..]
  {
    block[..off] + src + block[off + |src|..]
  }
}

/** The usual option type. */
module Options {
  datatype Option<+T> = None | Some(value: T)
}
