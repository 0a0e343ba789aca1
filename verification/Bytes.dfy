/** Fixed-width integers and the explicit big-endian layout shared by every K-FSW file and
    message. A C integer type is a subset of `int`; wrap-around is always written out. */
module Bytes {

  type byte = x: int | 0 <= x < 0x100
  type uint16 = x: int | 0 <= x < 0x1_0000
  type uint32 = x: int | 0 <= x < 0x1_0000_0000
  type int32 = x: int | -0x8000_0000 <= x < 0x8000_0000
  type uint64 = x: int | 0 <= x < 0x1_0000_0000_0000_0000
  type int64 = x: int | -0x8000_0000_0000_0000 <= x < 0x8000_0000_0000_0000

  const UINT8_MAX: byte := 0xFF
  const UINT32_MAX: uint32 := 0xFFFF_FFFF
  const UINT64_MAX: uint64 := 0xFFFF_FFFF_FFFF_FFFF

  /** A build-time size from Kconfig that is at least one. */
  type Positive = n: nat | n >= 1 witness 1

  function Get16(b: seq<byte>): (v: uint16)
    requires |b| == 2
  {
    (b[0] as int) * 0x100 + b[1]
  }

  function Put16(v: uint16): (b: seq<byte>)
    ensures |b| == 2 && Get16(b) == v
  {
    [v / 0x100, v % 0x100]
  }

  function Get32(b: seq<byte>): (v: uint32)
    requires |b| == 4
  {
    Get16(b[..2]) * 0x1_0000 + Get16(b[2..])
  }

  function Put32(v: uint32): (b: seq<byte>)
    ensures |b| == 4 && Get32(b) == v
  {
    var b := Put16(v / 0x1_0000) + Put16(v % 0x1_0000);
    assert b[..2] == Put16(v / 0x1_0000) && b[2..] == Put16(v % 0x1_0000);
    b
  }

  function Get64(b: seq<byte>): (v: uint64)
    requires |b| == 8
  {
    Get32(b[..4]) * 0x1_0000_0000 + Get32(b[4..])
  }

  function Put64(v: uint64): (b: seq<byte>)
    ensures |b| == 8 && Get64(b) == v
  {
    var b := Put32(v / 0x1_0000_0000) + Put32(v % 0x1_0000_0000);
    assert b[..4] == Put32(v / 0x1_0000_0000) && b[4..] == Put32(v % 0x1_0000_0000);
    b
  }

  /** Most significant byte first. */
  lemma BigEndian(b: seq<byte>)
    requires |b| == 8
    ensures Get16(b[..2]) == b[0] as int * 0x100 + b[1]
    ensures Get32(b[..4]) == b[0] as int * 0x100_0000 + b[1] as int * 0x1_0000 + b[2] as int * 0x100 + b[3]
    ensures Get64(b) == Get32(b[..4]) as int * 0x1_0000_0000
                        + b[4] as int * 0x100_0000 + b[5] as int * 0x1_0000 + b[6] as int * 0x100 + b[7]
  {
    assert b[..4][..2] == b[..2] && b[..4][2..] == b[2..4];
    assert b[4..][..2] == b[4..6] && b[4..][2..] == b[6..8];
  }

  lemma PutGet16(b: seq<byte>)
    requires |b| == 2
    ensures Put16(Get16(b)) == b
  {
  }

  lemma PutGet32(b: seq<byte>)
    requires |b| == 4
    ensures Put32(Get32(b)) == b
  {
    hide Put16, Get16;
    PutGet16(b[..2]);
    PutGet16(b[2..]);
    var high: int, low: int := Get16(b[..2]), Get16(b[2..]);
    assert (high * 0x1_0000 + low) / 0x1_0000 == high && (high * 0x1_0000 + low) % 0x1_0000 == low;
    assert b == b[..2] + b[2..];
  }

  lemma PutGet64(b: seq<byte>)
    requires |b| == 8
    ensures Put64(Get64(b)) == b
  {
    hide Put32, Get32;
    PutGet32(b[..4]);
    PutGet32(b[4..]);
    var high: int, low: int := Get32(b[..4]), Get32(b[4..]);
    assert (high * 0x1_0000_0000 + low) / 0x1_0000_0000 == high && (high * 0x1_0000_0000 + low) % 0x1_0000_0000 == low;
    assert b == b[..4] + b[4..];
  }

  /** Two's complement reinterpretation of a 32-bit value. */
  function Signed32(u: uint32): (i: int32)
    ensures Unsigned32(i) == u
  {
    if u < 0x8000_0000 then u else u - 0x1_0000_0000
  }

  function Unsigned32(i: int32): (u: uint32) {
    if i >= 0 then i else i + 0x1_0000_0000
  }

  /** Two's complement reinterpretation of a 64-bit value. */
  function Signed64(u: uint64): (i: int64)
    ensures Unsigned64(i) == u
  {
    if u < 0x8000_0000_0000_0000 then u else u - 0x1_0000_0000_0000_0000
  }

  function Unsigned64(i: int64): (u: uint64) {
    if i >= 0 then i else i + 0x1_0000_0000_0000_0000
  }
}

/** The checksum of Zephyr's `crc32_ieee_update`: a fold over the bytes between two complements.
    The byte step is left uninterpreted, so nothing here depends on the polynomial. */
module Crc {
  import opened Bytes

  const BYTE_STEP: (uint32, byte) -> uint32

  function Complement(c: uint32): (r: uint32)
    ensures r == 0xFFFF_FFFF - c
  {
    0xFFFF_FFFF - c
  }

  function Fold(c: uint32, data: seq<byte>): uint32 {
    if data == [] then c else BYTE_STEP(Fold(c, data[..|data| - 1]), data[|data| - 1])
  }

  function Update(crc: uint32, data: seq<byte>): uint32 {
    Complement(Fold(Complement(crc), data))
  }

  function Checksum(data: seq<byte>): uint32 {
    Update(0, data)
  }

  lemma {:induction false} FoldConcat(c: uint32, a: seq<byte>, b: seq<byte>)
    ensures Fold(c, a + b) == Fold(Fold(c, a), b)
    decreases b
  {
    if b == [] {
      assert a + b == a;
    } else {
      var init := b[..|b| - 1];
      assert (a + b)[..|a + b| - 1] == a + init;
      FoldConcat(c, a, init);
    }
  }

  /** Chaining: a checksum continued over more bytes is the checksum of the concatenation. */
  lemma UpdateConcat(a: seq<byte>, b: seq<byte>)
    ensures Update(Checksum(a), b) == Checksum(a + b)
  {
    FoldConcat(Complement(0), a, b);
  }

  lemma ChecksumEmpty()
    ensures Checksum([]) == 0
  {
  }
}

/** Error codes, named as in errno.h, and what they travel in: an optional value, a value or an error,
    a bare status. */
module Errors {
  datatype Errno =
    | EACCES | EAGAIN | EALREADY | EBADMSG | EBUSY | ECONNREFUSED | EEXIST | EFBIG | EILSEQ
    | EINVAL | EIO | EISDIR | EMFILE | EMSGSIZE | ENAMETOOLONG | ENODATA | ENODEV | ENOENT
    | ENOMEM | ENOSPC | ENOTSUP | ENXIO | EOVERFLOW | EPROTONOSUPPORT | ERANGE | EROFS
    | ESPIPE | ESTALE | ETIME | ETIMEDOUT | E2BIG

  datatype Option<+T> = None | Some(value: T)

  datatype Result<+T> = Ok(value: T) | Err(error: Errno)

  /** A C status return: zero or a negative errno. */
  datatype Status = Success | Failure(error: Errno)
}

/** Finite sets. */
module Sets {
  lemma {:induction false} SubsetSize<T>(a: set<T>, b: set<T>)
    requires a <= b
    ensures |a| <= |b|
  {
    if a != {} {
      var x :| x in a;
      SubsetSize(a - {x}, b - {x});
    }
  }
}

/** Extremes, and facts about `*`, `/` and `%` with a symbolic divisor. */
module Arith {
  function Min(a: int, b: int): int {
    if a < b then a else b
  }

  function Max(a: int, b: int): int {
    if a > b then a else b
  }

  lemma Monotone(a: nat, b: nat, c: nat)
    requires a <= b
    ensures a * c <= b * c
  {
    assert b * c == a * c + (b - a) * c;
  }

  lemma MulAtLeast(a: int, d: int)
    requires a >= 1 && d >= 1
    ensures a * d >= d
  {
  }

  /** Quotient and remainder are unique. */
  lemma DivModUnique(x: int, d: int, q: int, m: int)
    requires d >= 1 && 0 <= m < d && x == q * d + m
    ensures x / d == q && x % d == m
  {
    var q', m' := x / d, x % d;
    assert x == q' * d + m';
    assert (q - q') * d == m' - m;
    if q > q' {
      MulAtLeast(q - q', d);
    } else if q < q' {
      assert (q' - q) * d == m - m';
      MulAtLeast(q' - q, d);
    }
  }

  /** Stepping by one moves to the next residue, or back to zero. */
  lemma ModStep(x: int, d: int)
    requires d >= 1
    ensures (x + 1) % d == if x % d + 1 == d then 0 else x % d + 1
  {
    var q, m := x / d, x % d;
    assert x == q * d + m;
    if m + 1 < d {
      DivModUnique(x + 1, d, q, m + 1);
    } else {
      assert x + 1 == (q + 1) * d + 0;
      DivModUnique(x + 1, d, q + 1, 0);
    }
  }

  /** Less than one divisor apart, two numbers leave different remainders; exactly one apart, the same. */
  lemma ModShift(x: int, k: int, d: int)
    requires d >= 1 && 0 <= k <= d
    ensures (x + k) % d == x % d <==> k == 0 || k == d
  {
    var q, m := x / d, x % d;
    assert x == q * d + m;
    if m + k < d {
      DivModUnique(x + k, d, q, m + k);
    } else {
      assert x + k == (q + 1) * d + (m + k - d);
      if m + k - d < d {
        DivModUnique(x + k, d, q + 1, m + k - d);
      }
    }
  }

  /** Reducing by a multiple first changes nothing. */
  lemma ModMod(x: int, c: int, d: int)
    requires c >= 1 && d >= 1
    ensures c * d >= 1 && (x % (c * d)) % d == x % d
  {
    MulAtLeast(c, d);
    var big := c * d;
    var q, m := x / big, x % big;
    var r, t := m / d, m % d;
    assert x == q * big + m && m == r * d + t;
    assert q * big == (q * c) * d;
    assert x == (q * c + r) * d + t by {
      assert (q * c + r) * d == (q * c) * d + r * d;
    }
    DivModUnique(x, d, q * c + r, t);
  }
}
