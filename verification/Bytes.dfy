/** Bytes and little-endian integers, shared by the storage modules. */
module Bytes {
  type byte = x: int | 0 <= x < 256

  datatype Option<+T> = None | Some(value: T)

  /** The page size of the database file. */
  const PAGE_SIZE := 4096

  /** The first pages hold the catalog. */
  const RESERVED_PAGES := 33

  const MAX_COLUMNS := 16

  const U64 := 0x1_0000_0000_0000_0000
  const U32 := 0x1_0000_0000

  function Low(n: nat): byte { n % 256 }

  /** k little-endian bytes. */
  function Le(n: nat, k: nat): (r: seq<byte>)
    ensures |r| == k
  {
    if k == 0 then [] else [Low(n)] + Le(n / 256, k - 1)
  }

  function FromLe(b: seq<byte>): nat {
    if b == [] then 0 else b[0] as int + 256 * FromLe(b[1..])
  }

  function Pow(b: nat, k: nat): nat { if k == 0 then 1 else b * Pow(b, k - 1) }

  lemma Powers()
    ensures Pow(256, 1) == 0x100 && Pow(256, 2) == 0x1_0000 && Pow(256, 4) == U32 && Pow(256, 8) == U64
  {
    assert Pow(256, 3) == 0x100_0000;
    assert Pow(256, 4) == U32;
    assert Pow(256, 5) == 0x100_0000_0000;
    assert Pow(256, 6) == 0x1_0000_0000_0000;
    assert Pow(256, 7) == 0x100_0000_0000_0000;
  }

  lemma {:induction false} LeRoundTrip(n: nat, k: nat)
    requires n < Pow(256, k)
    ensures FromLe(Le(n, k)) == n
  {
    if k > 0 {
      LeRoundTrip(n / 256, k - 1);
      assert Le(n, k)[1..] == Le(n / 256, k - 1);
    }
  }
}
