/**
 The synthetic dump's generators: account suffixes over the letters, and random amounts assembled
 from 32-bit chunks of an arbitrary source.
 */
module SyntheticDump {
  import opened Arithmetic

  // ----- account suffixes

  const LETTERS := 26

  predicate Lowercase(s: string) {
    forall i :: 0 <= i < |s| ==> 'a' <= s[i] <= 'z'
  }

  function LetterValue(c: char): int {
    c as int - 'a' as int
  }

  function Letter(value: nat): (c: char)
    requires value < LETTERS
    ensures 'a' <= c <= 'z' && LetterValue(c) == value
  {
    'a' + value as char
  }

  lemma LetterReadsBack(c: char)
    requires 'a' <= c <= 'z'
    ensures 0 <= LetterValue(c) < LETTERS && Letter(LetterValue(c)) == c
  {}

  /** The index as a word over the letters, where every letter counts, the first one too. */
  function ToLetterSuffix(index: nat): (s: string)
    ensures s != "" && Lowercase(s)
  {
    if index < LETTERS then [Letter(index)]
    else ToLetterSuffix(index / LETTERS - 1) + [Letter(index % LETTERS)]
  }

  /** One more than a suffix's index; the empty string counts nothing. */
  function Rank(s: string): nat
    requires Lowercase(s)
  {
    if s == "" then 0
    else Rank(s[..|s| - 1]) * LETTERS + LetterValue(s[|s| - 1]) + 1
  }

  function FromLetterSuffix(s: string): nat
    requires s != "" && Lowercase(s)
  {
    Rank(s) - 1
  }

  lemma {:induction false} SuffixReadsBack(index: nat)
    ensures FromLetterSuffix(ToLetterSuffix(index)) == index
  {
    var s := ToLetterSuffix(index);
    if index < LETTERS {
      assert s == [Letter(index)];
      assert Rank(s) == Rank("") * LETTERS + index + 1;
    } else {
      SuffixReadsBack(index / LETTERS - 1);
      assert s[..|s| - 1] == ToLetterSuffix(index / LETTERS - 1);
    }
  }

  lemma {:induction false} SuffixIsOnto(s: string)
    requires s != "" && Lowercase(s)
    ensures ToLetterSuffix(FromLetterSuffix(s)) == s
  {
    var front, letter := s[..|s| - 1], LetterValue(s[|s| - 1]);
    LetterReadsBack(s[|s| - 1]);
    if front == "" {
      assert Rank(s) == Rank("") * LETTERS + letter + 1;
      assert s == [Letter(letter)];
    } else {
      SuffixIsOnto(front);
      var index := FromLetterSuffix(s);
      assert index / LETTERS - 1 == FromLetterSuffix(front) && index % LETTERS == letter;
      assert s == front + [Letter(letter)];
    }
  }

  /** Shorter first, then by the first letter that differs. */
  ghost predicate Shortlex(s: string, t: string) {
    || |s| < |t|
    || (|s| == |t| && exists i :: 0 <= i < |s| && s[..i] == t[..i] && s[i] < t[i])
  }

  lemma {:induction false} RankIsMonotone(s: string, t: string)
    requires Lowercase(s) && Lowercase(t) && Shortlex(s, t)
    ensures Rank(s) < Rank(t)
  {
    if s != "" {
      var p, q := s[..|s| - 1], t[..|t| - 1];
      if |s| < |t| {
        RankIsMonotone(p, q);
      } else {
        var i :| 0 <= i < |s| && s[..i] == t[..i] && s[i] < t[i];
        if i < |s| - 1 {
          assert p[..i] == s[..i] == t[..i] == q[..i];
          RankIsMonotone(p, q);
        }
      }
    }
  }

  lemma {:induction false} ShortlexIsTotal(s: string, t: string)
    ensures s == t || Shortlex(s, t) || Shortlex(t, s)
  {
    if |s| == |t| && s != t {
      var i := 0;
      while s[i] == t[i]
        invariant 0 <= i < |s| && s[..i] == t[..i]
        decreases |s| - i
      {
        assert i + 1 == |s| ==> s == t;
        assert s[..i + 1] == t[..i + 1];
        i := i + 1;
      }
      assert t[..i] == s[..i];
    }
  }

  /** Suffixes and indices correspond one to one, in shortlex order. */
  lemma SuffixesAreOrdered(a: nat, b: nat)
    ensures a < b <==> Shortlex(ToLetterSuffix(a), ToLetterSuffix(b))
  {
    var s, t := ToLetterSuffix(a), ToLetterSuffix(b);
    SuffixReadsBack(a);
    SuffixReadsBack(b);
    if Shortlex(s, t) {
      RankIsMonotone(s, t);
    }
    if a < b {
      ShortlexIsTotal(s, t);
      if Shortlex(t, s) {
        RankIsMonotone(t, s);
      }
    }
  }

  /** Generated account names never collide. */
  lemma AccountNamesAreDistinct(prefix: string, a: nat, b: nat)
    requires prefix + ToLetterSuffix(a) == prefix + ToLetterSuffix(b)
    ensures a == b
  {
    var s, t := prefix + ToLetterSuffix(a), prefix + ToLetterSuffix(b);
    assert s[|prefix|..] == ToLetterSuffix(a) && t[|prefix|..] == ToLetterSuffix(b);
    SuffixReadsBack(a);
    SuffixReadsBack(b);
  }

  // ----- random amounts

  const CHUNK_BITS := 32
  const CHUNK_RANGE := 0x1_0000_0000

  function BitLength(n: nat): nat {
    if n < 2 then 1 else 1 + BitLength(n / 2)
  }

  /** How many chunks are drawn for an exclusive bound `max`. */
  function ChunkCount(max: int): nat {
    if max <= 1 then 0 else (BitLength(max) + CHUNK_BITS - 1) / CHUNK_BITS
  }

  function ChunkPower(n: nat): (power: nat)
    ensures power > 0
  {
    if n == 0 then 1 else CHUNK_RANGE * ChunkPower(n - 1)
  }

  /** What the random source delivered for one draw: as many chunks as asked for, each below 2^32. */
  predicate Draws(chunks: seq<nat>, max: int) {
    |chunks| == ChunkCount(max) && forall i :: 0 <= i < |chunks| ==> chunks[i] < CHUNK_RANGE
  }

  function Assemble(chunks: seq<nat>): nat {
    if chunks == [] then 0
    else Assemble(chunks[..|chunks| - 1]) + chunks[|chunks| - 1] * ChunkPower(|chunks| - 1)
  }

  function RandomBigInt(chunks: seq<nat>, max: int): int {
    if max <= 1 then 1
    else
      var total := Assemble(chunks) % max;
      if total == 0 then 1 else total
  }

  function Power2(n: nat): nat {
    if n == 0 then 1 else 2 * Power2(n - 1)
  }

  lemma {:induction false} BitLengthCovers(n: nat)
    ensures n < Power2(BitLength(n))
  {
    if n >= 2 {
      BitLengthCovers(n / 2);
    } else {
      assert Power2(1) == 2 * Power2(0);
    }
  }

  lemma {:induction false} PowersCovered(bits: nat, chunks: nat)
    requires bits <= CHUNK_BITS * chunks
    ensures Power2(bits) <= ChunkPower(chunks)
  {
    if chunks == 0 {
    } else if bits <= CHUNK_BITS {
      Power2Mono(bits, CHUNK_BITS);
      PowersCovered(0, chunks - 1);
      PowerOfChunk();
    } else {
      PowersCovered(bits - CHUNK_BITS, chunks - 1);
      PowerOfChunk();
      Power2Adds(CHUNK_BITS, bits - CHUNK_BITS);
    }
  }

  lemma {:induction false} Power2Mono(a: nat, b: nat)
    requires a <= b
    ensures Power2(a) <= Power2(b)
    decreases b - a
  {
    if a < b {
      Power2Mono(a + 1, b);
    }
  }

  lemma {:induction false} Power2Adds(a: nat, b: nat)
    ensures Power2(a + b) == Power2(a) * Power2(b)
  {
    if a > 0 {
      Power2Adds(a - 1, b);
      MulAssociates(2, Power2(a - 1), Power2(b));
    }
  }

  lemma PowerOfChunk()
    ensures Power2(CHUNK_BITS) == CHUNK_RANGE
  {
    assert Power2(8) == 0x100;
    Power2Adds(8, 8);
    Power2Adds(16, 16);
  }

  /** The chunks of a number, least significant first. */
  function Chunks(value: nat, count: nat): (chunks: seq<nat>)
    ensures |chunks| == count
  {
    if count == 0 then []
    else
      DivNonNeg(value, ChunkPower(count - 1));
      Chunks(value % ChunkPower(count - 1), count - 1) + [value / ChunkPower(count - 1)]
  }

  lemma {:induction false} ChunksAssemble(value: nat, count: nat)
    requires value < ChunkPower(count)
    ensures Assemble(Chunks(value, count)) == value
    ensures forall i :: 0 <= i < count ==> Chunks(value, count)[i] < CHUNK_RANGE
  {
    if count > 0 {
      var power := ChunkPower(count - 1);
      ModBounds(value, power);
      DivBounds(value, power);
      DivAtLeast(value, power, CHUNK_RANGE);
      ChunksAssemble(value % power, count - 1);
      assert Chunks(value, count)[..count - 1] == Chunks(value % power, count - 1);
    }
  }

  lemma {:induction false} BitLengthFits(n: nat)
    requires n >= 1
    ensures Power2(BitLength(n) - 1) <= n
  {
    if n >= 2 {
      BitLengthFits(n / 2);
    }
  }

  lemma {:induction false} ChunksAreBits(chunks: nat)
    ensures ChunkPower(chunks) == Power2(CHUNK_BITS * chunks)
  {
    if chunks > 0 {
      ChunksAreBits(chunks - 1);
      PowerOfChunk();
      Power2Adds(CHUNK_BITS, CHUNK_BITS * (chunks - 1));
    }
  }

  /** As many chunks are drawn as the bound needs and not one more. */
  lemma ChunkCountIsLeast(max: int)
    requires max > 1
    ensures ChunkCount(max) > 0
    ensures ChunkPower(ChunkCount(max) - 1) <= max < ChunkPower(ChunkCount(max))
  {
    var count := ChunkCount(max);
    BitLengthCovers(max);
    BitLengthFits(max);
    PowersCovered(BitLength(max), count);
    ChunksAreBits(count - 1);
    Power2Mono(CHUNK_BITS * (count - 1), BitLength(max) - 1);
  }

  /** A draw is what its chunks count, least significant first, modulo the bound; a multiple of the bound becomes 1. */
  lemma RandomBigIntIsResidue(chunks: seq<nat>, max: int)
    requires max > 1
    ensures Assemble(chunks) % max != 0 ==> (Assemble(chunks) - RandomBigInt(chunks, max)) % max == 0 && 0 < RandomBigInt(chunks, max) < max
    ensures Assemble(chunks) % max == 0 ==> RandomBigInt(chunks, max) == 1
  {
    var total := Assemble(chunks);
    DivBounds(total, max);
    DivUnique(total - total % max, max, total / max);
    DivBounds(total - total % max, max);
  }

  /** Every draw lies in [1, max), or is 1 when that range is empty; and every amount in the range can be drawn. */
  lemma RandomBigIntRange(chunks: seq<nat>, max: int, wanted: int)
    requires Draws(chunks, max)
    ensures max > 1 ==> 1 <= RandomBigInt(chunks, max) < max
    ensures max <= 1 ==> RandomBigInt(chunks, max) == 1
    ensures 1 <= wanted < max ==> exists drawn :: Draws(drawn, max) && RandomBigInt(drawn, max) == wanted
  {
    if max > 1 {
      ModBounds(Assemble(chunks), max);
    }
    if 1 <= wanted < max {
      var count := ChunkCount(max);
      BitLengthCovers(max);
      PowersCovered(BitLength(max), count);
      ChunksAssemble(wanted, count);
      ModBounds(wanted, max);
      assert Draws(Chunks(wanted, count), max) && RandomBigInt(Chunks(wanted, count), max) == wanted;
    }
  }

  // ----- yield-claimed rows

  const AMOUNT_SPREAD := 99

  function RandomAmount(minimum: int, chunks: seq<nat>): int {
    minimum + RandomBigInt(chunks, minimum * AMOUNT_SPREAD)
  }

  datatype YieldRow = YieldRow(pretokenYield: int, yieldClaimed: int)

  function YieldClaimedRow(minimum: int, amount: seq<nat>, claim: seq<nat>): YieldRow {
    var pretokenYield := RandomAmount(minimum, amount);
    YieldRow(pretokenYield, RandomBigInt(claim, TruncDiv(pretokenYield, 2)))
  }

  /** Magnitudes run from just above the floor to just below a hundred floors, and reach every amount between. */
  lemma RandomAmountRange(minimum: int, chunks: seq<nat>, wanted: int)
    requires minimum >= 1 && Draws(chunks, minimum * 99)
    ensures minimum < RandomAmount(minimum, chunks) < 100 * minimum
    ensures minimum < wanted < 100 * minimum ==>
      exists drawn :: Draws(drawn, minimum * 99) && RandomAmount(minimum, drawn) == wanted
  {
    RandomBigIntRange(chunks, minimum * AMOUNT_SPREAD, wanted - minimum);
    if minimum < wanted < 100 * minimum {
      var drawn :| Draws(drawn, minimum * AMOUNT_SPREAD) && RandomBigInt(drawn, minimum * AMOUNT_SPREAD) == wanted - minimum;
      assert Draws(drawn, minimum * 99) && RandomAmount(minimum, drawn) == wanted;
    }
  }

  /** A row's claim is below half of its own yield, and one unit when no half is left to draw from. */
  lemma ClaimIsBelowHalf(minimum: int, amount: seq<nat>, claim: seq<nat>)
    requires minimum >= 1 && Draws(amount, minimum * 99)
    requires Draws(claim, RandomAmount(minimum, amount) / 2)
    ensures var row := YieldClaimedRow(minimum, amount, claim);
            && row.pretokenYield == RandomAmount(minimum, amount)
            && (row.pretokenYield >= 4 ==> 1 <= row.yieldClaimed && 2 * (row.yieldClaimed + 1) <= row.pretokenYield)
            && (row.pretokenYield < 4 ==> row.yieldClaimed == 1)
  {
    RandomAmountRange(minimum, amount, 0);
    RandomBigIntRange(claim, RandomAmount(minimum, amount) / 2, 0);
  }

  /**
   The claim is partial, so that the row survives netting, for every draw when the magnitude floor
   is at least one unit, and for no draw when it is not.
   */
  lemma ClaimIsPartialExactlyAboveZero(minimum: int, amount: seq<nat>, claim: seq<nat>)
    requires Draws(amount, minimum * AMOUNT_SPREAD)
    requires Draws(claim, TruncDiv(RandomAmount(minimum, amount), 2))
    ensures var row := YieldClaimedRow(minimum, amount, claim);
            0 < row.yieldClaimed < row.pretokenYield <==> minimum >= 1
  {
    RandomBigIntRange(amount, minimum * AMOUNT_SPREAD, 1);
    RandomBigIntRange(claim, TruncDiv(RandomAmount(minimum, amount), 2), 1);
  }

  /** With a zero floor the generated row claims all of its yield. */
  lemma ZeroFloorClaimsEverything()
    ensures YieldClaimedRow(0, [], []) == YieldRow(1, 1)
  {}
}
