/** Wire-level helpers: the parts of Node's `Buffer`, `Uint8Array` and JavaScript's integer operators
    that the codec relies on. */
module Bytes {

  datatype Option<+T> = None | Some(value: T)

  datatype Result<+R, +E> = Success(value: R) | Failure(error: E)

  /** One octet of a `Buffer` or a `Uint8Array`. */
  type Byte = b: int | 0 <= b < 0x100

  /** A request or response frame. */
  type Packet = seq<Byte>

  /** An element of a `Uint16Array`. */
  type Uint16 = x: int | 0 <= x < 0x1_0000

  /** `buf.readUInt8(offset)`. */
  function ReadUInt8(p: Packet, offset: nat): (r: nat)
    requires offset < |p|
    ensures r < 0x100 && r == p[offset]
  {
    p[offset]
  }

  /** `buf.readUInt16BE(offset)`: the high byte comes first. */
  function ReadUInt16BE(p: Packet, offset: nat): (r: Uint16)
    requires offset + 2 <= |p|
    ensures r / 0x100 == p[offset] && r % 0x100 == p[offset + 1]
  {
    ReadUInt8(p, offset) * 0x100 + ReadUInt8(p, offset + 1)
  }

  /** Storing a non-negative number into a `Uint8Array` keeps it modulo 256. */
  function ToUint8(x: nat): (r: Byte)
    ensures r == x % 0x100
    ensures x < 0x100 ==> r == x
  {
    x % 0x100
  }

  /** `x >> 8` stored in a `Uint8Array`: the high byte of the low sixteen bits of `x`. */
  function HighByte(x: nat): (r: Byte)
    ensures r == x % 0x1_0000 / 0x100
  {
    SplitTwice(x, x / 0x100, x / 0x100 % 0x100, x % 0x100);
    ToUint8(x / 0x100)
  }

  /** `x & 0xFF` stored in a `Uint8Array`: with the high byte it makes up the low sixteen bits of `x`. */
  function LowByte(x: nat): (r: Byte)
    ensures HighByte(x) * 0x100 + r == x % 0x1_0000
  {
    SplitTwice(x, x / 0x100, x / 0x100 % 0x100, x % 0x100);
    ToUint8(x % 0x100)
  }

  /** Writing a number as two bytes, high byte first, and reading it back with `readUInt16BE`
      gives the number modulo 2^16. */
  lemma {:induction false} HighLowRoundTrip(x: nat, p: Packet, offset: nat)
    requires offset + 2 <= |p|
    requires p[offset] == HighByte(x) && p[offset + 1] == LowByte(x)
    ensures ReadUInt16BE(p, offset) == x % 0x1_0000
  {
    var q := x / 0x100;
    var hi, lo := q % 0x100, x % 0x100;
    assert ReadUInt16BE(p, offset) == hi * 0x100 + lo;
    SplitTwice(x, q, hi, lo);
  }

  /** The low sixteen bits of `x` are its second-lowest byte times 256 plus its lowest byte. */
  lemma SplitTwice(x: nat, q: nat, hi: nat, lo: nat)
    requires q == x / 0x100 && hi == q % 0x100 && lo == x % 0x100
    ensures x % 0x1_0000 == hi * 0x100 + lo
  {
    assert x == q * 0x100 + lo;
    assert q == (x / 0x1_0000) * 0x100 + hi by {
      DivDiv(x);
    }
    assert x == (x / 0x1_0000) * 0x1_0000 + (hi * 0x100 + lo);
  }

  lemma DivDiv(x: nat)
    ensures x / 0x100 / 0x100 == x / 0x1_0000
  {
  }

  // ---------------------------------------------------------------- bits

  function Pow2(n: nat): (r: nat)
    ensures r > 0
  {
    if n == 0 then 1 else 2 * Pow2(n - 1)
  }

  /** Bit `j` of `b`, 0 being the least significant. */
  predicate BitAt(b: nat, j: nat)
  {
    if j == 0 then b % 2 == 1 else BitAt(b / 2, j - 1)
  }

  /** `a << n` for the small operands of the codec. Shifting 1 sets bit `n` alone; shifting 0 sets none. */
  function ShiftLeft(a: nat, n: nat): (r: nat)
    ensures a < 2 ==> forall j :: BitAt(r, j) == (a == 1 && j == n)
  {
    forall j | a < 2
      ensures BitAt(a * Pow2(n), j) == (a == 1 && j == n)
    {
      if a == 1 {
        BitOfPow2(n, j);
      } else {
        BitAtZero(j);
      }
    }
    a * Pow2(n)
  }

  /** `a | b` on non-negative operands: bit by bit, from the least significant. */
  function BitOr(a: nat, b: nat): (r: nat)
    ensures a <= r && b <= r && r <= a + b
    decreases a + b
  {
    if a == 0 then b
    else if b == 0 then a
    else 2 * BitOr(a / 2, b / 2) + (if a % 2 == 1 || b % 2 == 1 then 1 else 0)
  }

  lemma {:induction false} BitAtZero(j: nat)
    ensures !BitAt(0, j)
  {
    if j > 0 {
      BitAtZero(j - 1);
    }
  }

  /** A bit of `a | b` is set exactly when it is set in `a` or in `b`. */
  lemma {:induction false} BitOrBits(a: nat, b: nat, j: nat)
    ensures BitAt(BitOr(a, b), j) == (BitAt(a, j) || BitAt(b, j))
    decreases a + b
  {
    if a == 0 {
      BitAtZero(j);
    } else if b == 0 {
      BitAtZero(j);
    } else {
      var c := BitOr(a / 2, b / 2);
      var d := if a % 2 == 1 || b % 2 == 1 then 1 else 0;
      assert BitOr(a, b) == 2 * c + d;
      assert (2 * c + d) / 2 == c && (2 * c + d) % 2 == d;
      if j > 0 {
        assert BitAt(2 * c + d, j) == BitAt(c, j - 1);
        BitOrBits(a / 2, b / 2, j - 1);
      }
    }
  }

  /** `a | b` of two `k`-bit numbers is a `k`-bit number. */
  lemma {:induction false} BitOrBound(a: nat, b: nat, k: nat)
    requires a < Pow2(k) && b < Pow2(k)
    ensures BitOr(a, b) < Pow2(k)
    decreases a + b
  {
    if a != 0 && b != 0 {
      assert k > 0;
      BitOrBound(a / 2, b / 2, k - 1);
    }
  }

  /** The only bit of `2^i` is bit `i`. */
  lemma {:induction false} BitOfPow2(i: nat, j: nat)
    ensures BitAt(Pow2(i), j) == (i == j)
  {
    if i == 0 {
      if j > 0 {
        BitAtZero(j - 1);
      }
    } else if j > 0 {
      BitOfPow2(i - 1, j - 1);
    }
  }

  /** Adding `2^k` to a `k`-bit number sets bit `k` and keeps the others. */
  lemma {:induction false} BitsOfSum(x: nat, k: nat, j: nat)
    requires x < Pow2(k)
    ensures BitAt(x + Pow2(k), j) == (j == k || BitAt(x, j))
  {
    if k == 0 {
      BitOfPow2(0, j);
    } else if j > 0 {
      assert (x + Pow2(k)) / 2 == x / 2 + Pow2(k - 1);
      BitsOfSum(x / 2, k - 1, j - 1);
    }
  }

  /** A `k`-bit number is determined by its `k` bits. */
  lemma {:induction false} BitsDetermine(a: nat, b: nat, k: nat)
    requires a < Pow2(k) && b < Pow2(k)
    requires forall j :: 0 <= j < k ==> BitAt(a, j) == BitAt(b, j)
    ensures a == b
  {
    if k > 0 {
      assert BitAt(a, 0) == BitAt(b, 0);
      forall j | 0 <= j < k - 1
        ensures BitAt(a / 2, j) == BitAt(b / 2, j)
      {
        assert BitAt(a, j + 1) == BitAt(b, j + 1);
      }
      BitsDetermine(a / 2, b / 2, k - 1);
    }
  }

  /** `x | 2^k` for a number below `2^(k+1)`: `x` itself when bit `k` is already set, `x + 2^k` otherwise. */
  lemma {:induction false} OrHighBit(x: nat, k: nat)
    requires x < 2 * Pow2(k)
    ensures BitOr(x, Pow2(k)) == if x >= Pow2(k) then x else x + Pow2(k)
  {
    var target := if x >= Pow2(k) then x else x + Pow2(k);
    var low := if x >= Pow2(k) then x - Pow2(k) else x;
    assert target == low + Pow2(k);
    assert Pow2(k + 1) == 2 * Pow2(k);
    BitOrBound(x, Pow2(k), k + 1);
    forall j | 0 <= j < k + 1
      ensures BitAt(BitOr(x, Pow2(k)), j) == BitAt(target, j)
    {
      BitOrBits(x, Pow2(k), j);
      BitOfPow2(k, j);
      BitsOfSum(low, k, j);
    }
    BitsDetermine(BitOr(x, Pow2(k)), target, k + 1);
  }

  function Min(a: nat, b: nat): nat
  {
    if a <= b then a else b
  }

  /** `Array.prototype.slice(start, end)` for non-negative bounds: both ends are clamped to the length. */
  function Slice<T>(s: seq<T>, start: nat, end: nat): (r: seq<T>)
    ensures |r| == if Min(end, |s|) <= Min(start, |s|) then 0 else Min(end, |s|) - start
    ensures forall k :: 0 <= k < |r| ==> start + k < |s| && r[k] == s[start + k]
  {
    if Min(end, |s|) <= Min(start, |s|) then [] else s[start..Min(end, |s|)]
  }
}
