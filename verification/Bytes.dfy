// Octets, big-endian fields and the option type shared by every module.

module Bytes {

  type byte = x: int | 0 <= x < 256
  type bytes = seq<byte>

  const U32_MAX: nat := 0xFFFF_FFFF

  datatype Option<+T> = None | Some(value: T)

  // The big-endian u16 stored at offset i.
  function U16At(b: bytes, i: nat): (n: nat)
    requires i + 2 <= |b|
    ensures n < 0x1_0000
  {
    b[i] as int * 256 + b[i + 1]
  }

  // The big-endian u32 stored at offset i.
  function U32At(b: bytes, i: nat): (n: nat)
    requires i + 4 <= |b|
    ensures n <= U32_MAX
  {
    U16At(b, i) * 0x1_0000 + U16At(b, i + 2)
  }

  function Be16(n: nat): (b: bytes)
    requires n < 0x1_0000
    ensures |b| == 2 && U16At(b, 0) == n
  {
    [n / 256, n % 256]
  }

  function Be32(n: nat): (b: bytes)
    requires n <= U32_MAX
    ensures |b| == 4 && U32At(b, 0) == n
  {
    Be16(n / 0x1_0000) + Be16(n % 0x1_0000)
  }

  // A two-octet field is determined by its value.
  lemma Be16OfU16(b: bytes, i: nat)
    requires i + 2 <= |b|
    ensures Be16(U16At(b, i)) == b[i..i + 2]
  {
    var n := U16At(b, i);
    assert n / 256 == b[i] && n % 256 == b[i + 1];
  }

  // A slice of a slice is a slice.
  lemma SliceSlice(s: bytes, a: nat, b: nat, i: nat, j: nat)
    requires a <= b <= |s| && i <= j <= b - a
    ensures s[a..b][i..j] == s[a + i..a + j]
  {
    var t, u := s[a..b][i..j], s[a + i..a + j];
    forall k | 0 <= k < j - i ensures t[k] == u[k] {
      assert s[a..b][i + k] == s[a + (i + k)];
    }
  }

  lemma {:induction false} SubsetSize<T>(a: set<T>, b: set<T>)
    requires a <= b
    ensures |a| <= |b|
  {
    if a != {} {
      var x :| x in a;
      SubsetSize(a - {x}, b - {x});
    }
  }
}
