/** The streams recode writes (hw1/src/hw1.c:412-487), frame by frame and byte by byte. */
module AudioStreams {
  import opened AudioFrames

  // ----- speeding up and slowing down -------------------------------------------------------------

  /** From a frame that is due on: it is kept, and the next due frame is factor frames on. */
  lemma SpedFrom(fs: seq<seq<byte>>, c: nat, factor: nat)
    requires factor > 0 && fs != [] && Due(c, factor) && forall i :: c < i < c + factor ==> !Due(i, factor)
    ensures Sped(fs, c, factor) == [fs[0]] + if |fs| <= factor then [] else Sped(fs[factor..], c + factor, factor)
  {
    hide Due;
    var n := if |fs| <= factor then |fs| else factor;
    var gs, rest := fs[1..n], fs[n..];
    assert fs[1..] == gs + rest;
    SpedSkips(gs, rest, c + 1, factor);
  }

  /** Speeding up keeps exactly the frames 0, factor, 2 * factor and so on. */
  lemma {:induction false} SpedAt(fs: seq<seq<byte>>, m: nat, factor: nat, i: nat)
    requires factor > 0
    ensures var r := Sped(fs, m * factor, factor);
      && (i < |r| <==> i * factor < |fs|)
      && (i < |r| ==> r[i] == fs[i * factor])
    decreases |fs|
  {
    hide Due, Sped;
    if fs == [] {
      SpedNothing(m * factor, factor);
    } else {
      forall k | m * factor < k < m * factor + factor ensures !Due(k, factor) {
        NotDue(m, factor, k - m * factor);
      }
      NotDue(m, factor, 0);
      SpedFrom(fs, m * factor, factor);
      assert (m + 1) * factor == m * factor + factor;
      if i > 0 {
        Below(i - 1, i, factor);
        if |fs| > factor {
          SpedAt(fs[factor..], m + 1, factor, i - 1);
          assert i * factor == (i - 1) * factor + factor;
        }
      }
    }
  }

  lemma SpedNothing(c: nat, factor: nat)
    requires factor > 0
    ensures Sped([], c, factor) == []
  {
  }

  lemma {:induction false} InsertedAt(mid: Between, a: seq<byte>, b: seq<byte>, i: nat, factor: nat, r: nat)
    requires i + r < factor
    ensures Inserted(mid, a, b, i, factor)[r] == mid(a, b, i + r)
    decreases r
  {
    if r > 0 { InsertedAt(mid, a, b, i + 1, factor, r - 1); }
  }

  /** Between frames k and k + 1 of the input stand the interpolations 1, ..., factor - 1 in order. */
  lemma {:induction false} SlowedAt(mid: Between, prev: seq<byte>, fs: seq<seq<byte>>, factor: nat, k: nat, r: nat)
    requires 0 < r <= factor && k < |fs|
    ensures |SlowedAfter(mid, prev, fs, factor)| == |fs| * factor && 0 <= k * factor + r - 1 < |fs| * factor
    ensures SlowedAfter(mid, prev, fs, factor)[k * factor + r - 1] ==
      if r == factor then fs[k] else mid(if k == 0 then prev else fs[k - 1], fs[k], r)
    decreases k
  {
    SlowedLength(mid, prev, fs, factor);
    Below(k, |fs|, factor);
    var first := Inserted(mid, prev, fs[0], 1, factor) + [fs[0]];
    if k == 0 {
      if r < factor { InsertedAt(mid, prev, fs[0], 1, factor, r - 1); }
    } else {
      SlowedAt(mid, fs[0], fs[1..], factor, k - 1, r);
      assert k * factor == factor + (k - 1) * factor;
      assert SlowedAfter(mid, prev, fs, factor) == first + SlowedAfter(mid, fs[0], fs[1..], factor);
      assert |first| == factor;
    }
  }

  lemma Below(k: nat, n: nat, factor: nat)
    requires k < n
    ensures k * factor + factor <= n * factor && k * factor >= 0
  {
    assert (k + 1) * factor <= n * factor;
  }

  // ----- encryption -------------------------------------------------------------------------------

  lemma {:induction false} SeedAdds(next: nat, m: nat, n: nat)
    ensures SeedAfter(SeedAfter(next, m), n) == SeedAfter(next, m + n)
  {
    if n > 0 { SeedAdds(next, m, n - 1); }
  }

  /** The low b bytes of a random number are its last bytes. */
  lemma LowByte(next: nat, b: nat, j: nat)
    requires j < b <= 4
    ensures ByteOf(Rand32(next), b, j) == RandByte(next, 4 - b + j + 1)
  {
    SplitJoined(RandBytes(next, 4), 4, 4 - b + j);
    hide Joined, RandBytes, Rand;
    assert ByteOf(Rand32(next), b, j) == ByteOf(Rand32(next), 4, 4 - b + j);
  }

  /** Every channel uses up one random number of four bytes. */
  lemma {:induction false} ChannelsUse(f: seq<byte>, g: nat, fmt: Format, next: nat)
    requires fmt.Valid() && g <= fmt.channels && |f| == fmt.From(g)
    ensures CryptChannels(f, g, fmt, next).1 == SeedAfter(next, 4 * (fmt.channels - g))
    decreases fmt.channels - g
  {
    hide CryptSample, Rand32, NextSeed;
    if g < fmt.channels {
      Times(fmt.channels - g - 1, fmt.bytes);
      ChannelsUse(f[fmt.bytes..], g + 1, fmt, Advanced(next));
      SeedAdds(next, 4, 4 * (fmt.channels - g - 1));
    }
  }

  /** Byte j of channel g + c is xored with its byte of the number after c others. */
  lemma {:induction false} ChannelByte(f: seq<byte>, g: nat, fmt: Format, next: nat, c: nat, j: nat)
    requires fmt.Valid() && g + c < fmt.channels && |f| == fmt.From(g) && j < fmt.bytes
    ensures c * fmt.bytes + j < |f|
    ensures CryptChannels(f, g, fmt, next).0[c * fmt.bytes + j] ==
      f[c * fmt.bytes + j] ^ ByteOf(Rand32(SeedAfter(next, 4 * c)), fmt.bytes, j)
    decreases c
  {
    hide CryptSample, Rand32, ByteOf;
    var b := fmt.bytes;
    Times(fmt.channels - g - 1, b);
    Below(c, fmt.channels - g, b);
    var s := f[..b];
    if c == 0 {
      CryptByte(s, Rand32(next), j);
    } else {
      ChannelByte(f[b..], g + 1, fmt, Advanced(next), c - 1, j);
      SeedAdds(next, 4, 4 * (c - 1));
      assert c * b == b + (c - 1) * b;
    }
  }

  /** Where byte j of channel c stands in a frame. */
  ghost function Spot(fmt: Format, c: nat, j: nat): (n: nat)
    requires fmt.Valid() && c < fmt.channels && j < fmt.bytes
    ensures n < fmt.Width()
  {
    Below(c, fmt.channels, fmt.bytes);
    c * fmt.bytes + j
  }

  /** The number of its random byte: four for every channel of every frame before, then those above a
      sample of this width. */
  ghost function Draw(fmt: Format, i: nat, c: nat, j: nat): nat
    requires fmt.Valid()
  {
    4 * (i * fmt.channels + c) + (4 - fmt.bytes) + j + 1
  }

  /** Byte j of channel c of frame i is xored with its random byte. */
  lemma {:induction false} FrameByte(fs: seq<seq<byte>>, fmt: Format, key: nat, i: nat, c: nat, j: nat)
    requires fmt.Valid() && (forall f :: f in fs ==> |f| == fmt.Width())
    requires i < |fs| && c < fmt.channels && j < fmt.bytes
    ensures var n := Spot(fmt, c, j);
      && n < |fs[i]| == |CryptFrames(fs, fmt, key)[i]|
      && CryptFrames(fs, fmt, key)[i][n] == fs[i][n] ^ RandByte(key, Draw(fmt, i, c, j))
    decreases i
  {
    hide CryptChannels, Rand32, ByteOf, RandByte, SeedAfter, Spot, Draw;
    assert fs[0] in fs && fs[i] in fs;
    var all := CryptFrames(fs, fmt, key);
    assert all[i] in all;
    if i == 0 {
      FirstFrameByte(fs[0], fmt, key, c, j);
    } else {
      var (f, last) := CryptChannels(fs[0], 0, fmt, key);
      ChannelsUse(fs[0], 0, fmt, key);
      FrameByte(fs[1..], fmt, last, i - 1, c, j);
      DrawLater(fmt, key, i, c, j);
    }
  }

  lemma FirstFrameByte(f: seq<byte>, fmt: Format, key: nat, c: nat, j: nat)
    requires fmt.Valid() && |f| == fmt.Width() && c < fmt.channels && j < fmt.bytes
    ensures var n := Spot(fmt, c, j);
      CryptChannels(f, 0, fmt, key).0[n] == f[n] ^ RandByte(key, Draw(fmt, 0, c, j))
  {
    hide CryptChannels, Rand32, ByteOf, Rand;
    ChannelByte(f, 0, fmt, key, c, j);
    LowByte(SeedAfter(key, 4 * c), fmt.bytes, j);
    SeedAdds(key, 4 * c, 4 - fmt.bytes + j + 1);
  }

  lemma DrawLater(fmt: Format, key: nat, i: nat, c: nat, j: nat)
    requires fmt.Valid() && i > 0
    requires c < fmt.channels && j < fmt.bytes
    ensures RandByte(SeedAfter(key, 4 * fmt.channels), Draw(fmt, i - 1, c, j)) == RandByte(key, Draw(fmt, i, c, j))
  {
    hide Rand;
    SeedAdds(key, 4 * fmt.channels, Draw(fmt, i - 1, c, j));
    assert i * fmt.channels == (i - 1) * fmt.channels + fmt.channels;
  }

  lemma NextIs(x: nat, q: nat, y: nat)
    requires x * 1103515245 + 12345 == q * 0x1_0000_0000_0000_0000 + y && y < 0x1_0000_0000_0000_0000
    ensures NextSeed(x) == y
  {
    ModUnique(x * 1103515245 + 12345, 0x1_0000_0000_0000_0000, q, y);
  }

  /** The first four states and bytes from the seed 1. */
  lemma FirstBytes()
    ensures SeedAfter(1, 1) == 1103527590 && Rand(SeedAfter(1, 1)) == 131
    ensures SeedAfter(1, 2) == 1217759518843121895 && Rand(SeedAfter(1, 2)) == 44
    ensures SeedAfter(1, 3) == 15426401326682203284 && Rand(SeedAfter(1, 3)) == 79
    ensures SeedAfter(1, 4) == 14214738562022873917 && Rand(SeedAfter(1, 4)) == 136
  {
    hide NextSeed, Rand, SeedAfter;
    NextIs(1, 0, 1103527590);
    OneSeed(1, 0);
    TopIs(1103527590, 16838, 16838, 16838, 131);
    NextIs(1103527590, 0, 1217759518843121895);
    OneSeed(1, 1);
    TopIs(1217759518843121895, 18581535626878, 1507104382, 5758, 44);
    NextIs(1217759518843121895, 72848421, 15426401326682203284);
    OneSeed(1, 2);
    TopIs(15426401326682203284, 235388203837313, 2521180033, 10113, 79);
    NextIs(15426401326682203284, 922833263, 14214738562022873917);
    OneSeed(1, 3);
    TopIs(14214738562022873917, 216899697296491, 3848848491, 17515, 136);
  }

  lemma OneSeed(next: nat, n: nat)
    ensures SeedAfter(next, n + 1) == NextSeed(SeedAfter(next, n)) && SeedAfter(next, 0) == next
  {
  }

  lemma QuotientIs(n: nat, d: nat, q: nat)
    requires q * d <= n < q * d + d
    ensures n / d == q
  {
    ModUnique(n, d, q, n - q * d);
    assert n == n / d * d + n % d;
    MultipleSize(n / d - q, d);
    assert (n / d - q) * d == n / d * d - q * d;
  }

  /** The steps of Rand with their results. */
  lemma TopIs(y: nat, k: nat, u: nat, w: nat, top: nat)
    requires k * 65536 <= y < k * 65536 + 65536
    requires u < 0x1_0000_0000 && (k - u) % 0x1_0000_0000 == 0
    requires w < 32768 && (u - w) % 32768 == 0
    requires top * 128 <= w < top * 128 + 128
    ensures Rand(y) == top
  {
    QuotientIs(y, 65536, k);
    ModUnique(k, 0x1_0000_0000, (k - u) / 0x1_0000_0000, u);
    ModUnique(u, 32768, (u - w) / 32768, w);
    QuotientIs(w, 128, top);
  }
}
