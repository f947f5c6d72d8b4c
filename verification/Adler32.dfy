/** Adler-32, section 8.2 of RFC 1950: the frame checksum. */
module Adler32 {
  import opened Endian

  const BASE := 65521

  datatype Sums = Sums(s1: nat, s2: nat)

  /** One step a byte: `s1` sums the bytes, `s2` sums the values of `s1`. */
  function Run(bytes: seq<byte>): (sums: Sums)
    ensures sums.s1 < BASE && sums.s2 < BASE
  {
    if bytes == [] then Sums(1, 0)
    else
      var before := Run(bytes[..|bytes| - 1]);
      var s1 := (before.s1 + bytes[|bytes| - 1]) % BASE;
      Sums(s1, (before.s2 + s1) % BASE)
  }

  function Checksum(bytes: seq<byte>): (sum: nat)
    ensures sum < 0x1_0000_0000
  {
    Run(bytes).s2 * 65536 + Run(bytes).s1
  }

  function Sum(bytes: seq<byte>): nat {
    if bytes == [] then 0 else Sum(bytes[..|bytes| - 1]) + bytes[|bytes| - 1]
  }

  /** `n * b[0] + (n-1) * b[1] + ... + b[n-1]` */
  function WeightedSum(bytes: seq<byte>): nat {
    if bytes == [] then 0 else WeightedSum(bytes[..|bytes| - 1]) + Sum(bytes)
  }

  lemma AddMod(x: nat, y: nat)
    ensures (x % BASE + y) % BASE == (x + y) % BASE
  {
  }

  lemma AddModRight(x: nat, y: nat)
    ensures (x + y % BASE) % BASE == (x + y) % BASE
  {
    AddMod(y, x);
  }

  lemma {:induction false} ClosedForm(bytes: seq<byte>)
    ensures Run(bytes).s1 == (1 + Sum(bytes)) % BASE
    ensures Run(bytes).s2 == (|bytes| + WeightedSum(bytes)) % BASE
  {
    if bytes != [] {
      var front, last := bytes[..|bytes| - 1], bytes[|bytes| - 1];
      ClosedForm(front);
      AddMod(1 + Sum(front), last);
      AddMod(|front| + WeightedSum(front), 1 + Sum(bytes));
      AddModRight(Run(front).s2, 1 + Sum(bytes));
    }
  }

  /** The weighted sum is the high half of the checksum, the plain one the low. */
  lemma ChecksumIs(bytes: seq<byte>)
    ensures Checksum(bytes) / 65536 == (|bytes| + WeightedSum(bytes)) % BASE
    ensures Checksum(bytes) % 65536 == (1 + Sum(bytes)) % BASE
  {
    ClosedForm(bytes);
  }

  lemma ChecksumOfAbc()
    ensures Checksum([97, 98, 99]) == 0x024D0127
  {
    assert [97, 98, 99][..2] == [97, 98] && [97, 98][..1] == [97] && [97][..0] == [];
    assert Run([97]) == Sums(98, 98);
    assert Run([97, 98]) == Sums(196, 294);
  }

  lemma {:induction false} SumUpdate(bytes: seq<byte>, i: nat, b: byte)
    requires i < |bytes|
    ensures Sum(bytes[i := b]) == Sum(bytes) - bytes[i] + b
  {
    var n := |bytes|;
    if i == n - 1 {
      assert bytes[i := b][..n - 1] == bytes[..n - 1];
    } else {
      SumUpdate(bytes[..n - 1], i, b);
      assert bytes[i := b][..n - 1] == bytes[..n - 1][i := b];
    }
  }

  /** Any change of a single byte changes the checksum. */
  lemma SingleChangeDetected(bytes: seq<byte>, i: nat, b: byte)
    requires i < |bytes| && b != bytes[i]
    ensures Checksum(bytes[i := b]) != Checksum(bytes)
  {
    ClosedForm(bytes);
    ClosedForm(bytes[i := b]);
    SumUpdate(bytes, i, b);
    DifferentResidues(1 + Sum(bytes), b - bytes[i]);
    assert 1 + Sum(bytes[i := b]) == 1 + Sum(bytes) + (b - bytes[i]);
    SumsAreRead(Run(bytes), Run(bytes[i := b]));
  }

  lemma SumsAreRead(x: Sums, y: Sums)
    requires x.s1 < BASE && y.s1 < BASE && x.s1 != y.s1
    ensures x.s2 * 65536 + x.s1 != y.s2 * 65536 + y.s1
  {
  }

  lemma DifferentResidues(x: int, d: int)
    requires -256 < d < 256 && d != 0
    ensures (x + d) % BASE != x % BASE
  {
  }
}
