/** The Internet checksum as kernel/net.c computes it (sections 1 and 4.1 of RFC 1071), on a little-endian machine. */
module Checksum {
  import opened Basics

  const WORD := 0x1_0000
  const ONES := 0xffff
  const ACC := 0x1_0000_0000

  /** The sum of the 16-bit words of a buffer, an odd last byte counting as a word by itself. */
  function Sum(b: seq<Byte>): (r: nat)
    ensures r <= ONES * ((|b| + 1) / 2)
  {
    if |b| == 0 then 0
    else if |b| == 1 then b[0]
    else
      var low: int, high: int := b[0], b[1];
      low + 256 * high + Sum(b[2..])
  }

  /** The one's-complement sum: 16 bits, congruent to the sum modulo 0xffff, and 0 only for 0. */
  function Ones(s: nat): (r: nat)
    ensures r <= ONES && (r == 0 <==> s == 0)
  {
    if s == 0 then 0 else (s - 1) % ONES + 1
  }

  /** Two folds of a 32-bit sum leave its one's-complement sum in the low 16 bits. */
  lemma TwoFolds(s: nat)
    requires s < ACC
    ensures var once := s % WORD + s / WORD;
            (once + once / WORD) % WORD == Ones(s)
  {
    var low, high := s % WORD, s / WORD;
    var once := low + high;
    assert s == once + ONES * high;
    if once >= WORD {
      assert once / WORD == 1;
      Congruent(once, high);
    } else if once > 0 {
      Congruent(once, high);
    }
  }

  lemma Congruent(x: nat, k: nat)
    requires x > 0
    ensures (x + ONES * k - 1) % ONES == (x - 1) % ONES
  {
  }

  /** in_cksum. The accumulator has 32 bits and does not overflow for up to 65537 words. */
  method InCksum(b: seq<Byte>) returns (r: nat)
    requires |b| <= 2 * 65537
    ensures r == ONES - Ones(Sum(b))
  {
    hide Sum;
    NoOverflow(b);
    var sum, i := 0, 0;
    assert b[0..] == b;
    while |b| - i > 1
      invariant 0 <= i <= |b| && 0 <= sum && sum + Sum(b[i..]) == Sum(b)
    {
      TakeWord(b, i);
      var low: int, high: int := b[i], b[i + 1];
      var next := sum + (low + 256 * high);
      assert next < ACC;
      sum := next % ACC;
      i := i + 2;
    }
    LastByte(b, i);
    if |b| - i == 1 {
      var next := sum + b[i];
      sum := next % ACC;
    }
    TwoFolds(sum);
    var once := sum % WORD + sum / WORD;
    var twice := once + once / WORD;
    r := ONES - twice % WORD;
  }

  lemma TakeWord(b: seq<Byte>, i: int)
    requires 0 <= i && i + 1 < |b|
    ensures var low: int, high: int := b[i], b[i + 1]; Sum(b[i..]) == low + 256 * high + Sum(b[i + 2..])
  {
    assert b[i..][2..] == b[i + 2..];
  }

  lemma LastByte(b: seq<Byte>, i: int)
    requires 0 <= i <= |b| <= i + 1
    ensures Sum(b[i..]) == if i < |b| then b[i] else 0
  {
  }

  lemma NoOverflow(b: seq<Byte>)
    requires |b| <= 2 * 65537
    ensures Sum(b) < ACC
  {
    assert (|b| + 1) / 2 <= 65537;
  }

  /** A word put where the sum had 0 that completes it makes the checksum of the whole 0. */
  lemma Completes(s: nat)
    requires s > 0
    ensures ONES - Ones(s + (ONES - Ones(s))) == 0
  {
    var q, r := (s - 1) / ONES, (s - 1) % ONES;
    assert s == q * ONES + r + 1;
    assert s + (ONES - Ones(s)) == q * ONES + ONES;
    Multiple(q);
  }

  lemma Multiple(q: nat)
    ensures (q * ONES + ONES - 1) % ONES == ONES - 1
  {
  }

  lemma {:induction false} SumJoin(a: seq<Byte>, b: seq<Byte>)
    requires |a| % 2 == 0
    ensures Sum(a + b) == Sum(a) + Sum(b)
    decreases |a|
  {
    if a == [] {
      assert a + b == b;
    } else {
      assert (a + b)[2..] == a[2..] + b;
      SumJoin(a[2..], b);
    }
  }

  /** Changing one word of a buffer whose checksum is 0 goes unnoticed exactly when 0 becomes 0xffff or the reverse. */
  lemma OneWordChanged(s: nat, was: nat, now: nat)
    requires was <= ONES && now <= ONES && was != now && was <= s && Ones(s) == ONES
    ensures Ones(s - was + now) == ONES <==> (s - was + now > 0 && ((was == ONES && now == 0) || (was == 0 && now == ONES)))
  {
    var q := (s - 1) / ONES;
    assert s == q * ONES + ONES;
    var t := s - was + now;
    if t > 0 && Ones(t) == ONES {
      var p := (t - 1) / ONES;
      assert t == p * ONES + ONES;
      assert now - was == (p - q) * ONES;
    }
    if t > 0 && was == ONES && now == 0 { assert t == q * ONES; assert t == (q - 1) * ONES + ONES; Multiple(q - 1); }
    if was == 0 && now == ONES { assert t == (q + 1) * ONES + ONES; Multiple(q + 1); }
  }

  function WordOf(low: Byte, high: Byte): nat {
    var l: int, h: int := low, high;
    l + 256 * h
  }

  /** The sum of a buffer with one of its words changed. */
  lemma SumWord(b: seq<Byte>, i: nat, low: Byte, high: Byte)
    requires 2 * i + 1 < |b|
    ensures var was, now := WordOf(b[2 * i], b[2 * i + 1]), WordOf(low, high);
            was <= Sum(b) && Sum(b[2 * i := low][2 * i + 1 := high]) == Sum(b) - was + now
  {
    hide Sum;
    var front, back, b' := b[..2 * i], b[2 * i + 2..], b[2 * i := low][2 * i + 1 := high];
    assert b == front + ([b[2 * i], b[2 * i + 1]] + back) && b' == front + ([low, high] + back);
    SumJoin(front, [b[2 * i], b[2 * i + 1]] + back);
    SumJoin(front, [low, high] + back);
    SumJoin([b[2 * i], b[2 * i + 1]], back);
    SumJoin([low, high], back);
    SumOfWord(low, high);
    SumOfWord(b[2 * i], b[2 * i + 1]);
  }

  lemma SumOfWord(low: Byte, high: Byte)
    ensures Sum([low, high]) == WordOf(low, high)
  {
  }
}
