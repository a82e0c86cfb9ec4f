/** The Internet checksum net_checksum (src/acomms/ip_codecs.cpp) against the
    ones' complement definition of sections 1 and 2 of RFC 1071. */
module NetChecksum {
  import opened ByteStrings

  const ACCUMULATOR := 0x1_0000_0000

  function Word(high: nat, low: nat): nat { high * 256 + low }

  // ----- RFC 1071

  /** Ones' complement addition: the carry out of 16 bits is added back in. */
  function AddEndAround(a: nat, b: nat): nat
  {
    if a + b > 0xFFFF then a + b - 0xFFFF else a + b
  }

  function OnesSum(data: Bytes): nat
  {
    if |data| == 0 then 0
    else if |data| == 1 then Word(data[0], 0)
    else AddEndAround(Word(data[0], data[1]), OnesSum(data[2..]))
  }

  function Reference(data: Bytes): int
  {
    0xFFFF - OnesSum(data)
  }

  // ----- the deferred-carry form of the code

  function WordSum(data: Bytes): nat
  {
    if |data| == 0 then 0
    else if |data| == 1 then Word(data[0], 0)
    else Word(data[0], data[1]) + WordSum(data[2..])
  }

  /** The fixed point of folding: the representative of s modulo 0xFFFF in 1..0xFFFF, and 0 for 0. */
  function Folded(s: nat): (f: nat)
    ensures f <= 0xFFFF
  {
    if s == 0 then 0 else (s - 1) % 0xFFFF + 1
  }

  /** What the code computes, wrap-around of its 32-bit accumulator included. */
  function Computed(data: Bytes): nat
  {
    0xFFFF - Folded(WordSum(data) % ACCUMULATOR)
  }

  method Checksum(data: Bytes) returns (checksum: nat)
    ensures checksum == Computed(data)
    ensures |data| <= 131074 ==> checksum == Reference(data)
  {
    var sum := Accumulate(data);
    sum := Fold(sum);
    checksum := 0xFFFF - sum;
    if |data| <= 131074 {
      NoOverflow(data);
    }
  }

  method Accumulate(data: Bytes) returns (sum: nat)
    ensures sum == WordSum(data) % ACCUMULATOR
  {
    sum := 0;
    var len := |data|;
    var p := 0;
    ghost var exact: nat := 0;
    while len > 1
      invariant 0 <= len <= |data| && p + len == |data|
      invariant exact + WordSum(data[p..]) == WordSum(data)
      invariant sum == exact % ACCUMULATOR
    {
      var word := Word(data[p], data[p + 1]);
      assert data[p..][2..] == data[p + 2..];
      AddModulo(exact, word);
      exact := exact + word;
      sum := (sum + word) % ACCUMULATOR;
      p := p + 2;
      len := len - 2;
    }
    if len != 0 {
      AddModulo(exact, Word(data[p], 0));
      sum := (sum + Word(data[p], 0)) % ACCUMULATOR;
    }
  }

  method Fold(total: nat) returns (sum: nat)
    ensures sum == Folded(total)
  {
    sum := total;
    while sum / 0x1_0000 != 0
      invariant Folded(sum) == Folded(total)
      decreases sum
    {
      FoldOnce(sum);
      sum := sum % 0x1_0000 + sum / 0x1_0000;
    }
  }

  /** For data that fits, the code agrees with RFC 1071 and its accumulator never wraps. */
  lemma NoOverflow(data: Bytes)
    requires |data| <= 131074
    ensures WordSum(data) < ACCUMULATOR
    ensures Computed(data) == Reference(data)
  {
    WithoutWrap(data);
    FoldedIsOnesSum(data);
  }

  lemma HalfUp(n: nat)
    requires n <= 131074
    ensures 0xFFFF * ((n + 1) / 2) < ACCUMULATOR
  {
  }

  lemma Unwrapped(s: nat)
    requires s < ACCUMULATOR
    ensures s % ACCUMULATOR == s
  {
  }

  /** The limit is exact: among the data of n bytes all are right just when n <= 131074. */
  lemma CorrectExactly(n: nat)
    ensures (forall data: Bytes :: |data| == n ==> Computed(data) == Reference(data)) <==> n <= 131074
  {
    if n <= 131074 {
      forall data: Bytes | |data| == n ensures Computed(data) == Reference(data) {
        NoOverflow(data);
      }
    } else {
      var data := Ones(131075) + Zeros(n - 131075);
      var size: nat :| size == 131075;
      assert data == Ones(size) + Zeros(n - size);
      OnesThenZeros(size, n - size);
      FoldedIsOnesSum(data);
      assert Computed(data) != Reference(data);
    }
  }

  /** A receiver that sums over the stored checksum gets 0. */
  lemma VerifiesToZero(data: Bytes, p: nat)
    requires |data| <= 131074 && p % 2 == 0 && p + 1 < |data|
    requires data[p] == 0 && data[p + 1] == 0
    ensures var c := Computed(data);
            Computed(data[p := c / 256][p + 1 := c % 256]) == 0
  {
    var c := Computed(data);
    var stored := data[p := c / 256][p + 1 := c % 256];
    WithoutWrap(data);
    StoreWord(data, p, c);
    WithoutWrap(stored);
    FoldedComplement(WordSum(data));
  }

  lemma WithoutWrap(data: Bytes)
    requires |data| <= 131074
    ensures WordSum(data) < ACCUMULATOR
    ensures Computed(data) == 0xFFFF - Folded(WordSum(data))
  {
    WordSumBound(data);
    HalfUp(|data|);
    Unwrapped(WordSum(data));
  }

  // ----- sums

  lemma {:induction false} WordSumBound(data: Bytes)
    ensures WordSum(data) <= 0xFFFF * ((|data| + 1) / 2)
  {
    if |data| >= 2 {
      WordSumBound(data[2..]);
      assert (|data| + 1) / 2 == 1 + (|data[2..]| + 1) / 2;
    }
  }

  lemma {:induction false} FoldedIsOnesSum(data: Bytes)
    ensures OnesSum(data) == Folded(WordSum(data))
  {
    if |data| == 1 {
      SmallFolded(Word(data[0], 0));
    } else if |data| >= 2 {
      FoldedIsOnesSum(data[2..]);
      FoldedSum(Word(data[0], data[1]), WordSum(data[2..]));
    }
  }

  lemma SmallFolded(s: nat)
    requires s <= 0xFFFF
    ensures Folded(s) == s
  {
  }

  lemma {:induction false} StoreWord(data: Bytes, p: nat, c: nat)
    requires p % 2 == 0 && p + 1 < |data| && c <= 0xFFFF
    requires data[p] == 0 && data[p + 1] == 0
    ensures WordSum(data[p := c / 256][p + 1 := c % 256]) == WordSum(data) + c
  {
    var stored := data[p := c / 256][p + 1 := c % 256];
    if p == 0 {
      assert stored[2..] == data[2..];
    } else {
      StoreWord(data[2..], p - 2, c);
      assert stored[2..] == data[2..][p - 2 := c / 256][p - 1 := c % 256];
    }
  }

  function Ones(n: nat): (s: Bytes)
    ensures |s| == n && forall i :: 0 <= i < n ==> s[i] == 0xFF
  {
    seq(n, _ => 0xFF)
  }

  lemma {:induction false} OnesThenZeros(n: nat, m: nat)
    requires n % 2 == 1
    ensures WordSum(Ones(n) + Zeros(m)) == 0xFFFF * (n / 2) + 0xFF00
  {
    var data := Ones(n) + Zeros(m);
    if n == 1 {
      if m > 0 {
        assert data[2..] == Zeros(m - 1);
        ZerosSum(m - 1);
      }
    } else {
      assert data[2..] == Ones(n - 2) + Zeros(m);
      OnesThenZeros(n - 2, m);
    }
  }

  lemma {:induction false} ZerosSum(m: nat)
    ensures WordSum(Zeros(m)) == 0
  {
    if m >= 2 {
      assert Zeros(m)[2..] == Zeros(m - 2);
      ZerosSum(m - 2);
    }
  }

  // ----- arithmetic modulo 2^32 and 2^16 - 1

  lemma AddModulo(a: nat, b: nat)
    ensures (a % ACCUMULATOR + b) % ACCUMULATOR == (a + b) % ACCUMULATOR
  {
  }

  lemma RemainderOf(x: nat, q: nat)
    ensures (0xFFFF * q + x) % 0xFFFF == x % 0xFFFF
  {
  }

  lemma FoldOnce(s: nat)
    requires s >= 0x1_0000
    ensures 0 < s % 0x1_0000 + s / 0x1_0000 < s
    ensures Folded(s % 0x1_0000 + s / 0x1_0000) == Folded(s)
  {
    RemainderOf(s % 0x1_0000 + s / 0x1_0000 - 1, s / 0x1_0000);
  }

  lemma FoldedComplement(s: nat)
    ensures Folded(s + (0xFFFF - Folded(s))) == 0xFFFF
  {
    if s > 0 {
      assert s + (0xFFFF - Folded(s)) - 1 == 0xFFFF * ((s - 1) / 0xFFFF) + 0xFFFE;
      RemainderOf(0xFFFE, (s - 1) / 0xFFFF);
    }
  }

  lemma FoldedSum(a: nat, s: nat)
    requires a <= 0xFFFF
    ensures AddEndAround(a, Folded(s)) == Folded(a + s)
  {
    if s > 0 {
      RemainderOf(a + Folded(s) - 1, (s - 1) / 0xFFFF);
    }
  }
}
