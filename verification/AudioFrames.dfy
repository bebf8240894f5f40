/** What recode does to the frames of a stream (hw1/src/hw1.c:412-487, hw1/src/myrand.c:19-45). */
module AudioFrames {

  /** A byte of the stream, as getchar returns it. */
  type byte = b: bv32 | b <= 0xff witness 0

  datatype Format = Format(channels: nat, bytes: nat) {
    /** What read_header accepts (lines 551-579); bytes is encoding - 1. */
    predicate Valid() {
      1 <= channels <= 2 && 1 <= bytes <= 4
    }

    /** The number of bytes in a frame. */
    function Width(): nat {
      channels * bytes
    }

    /** The number of bytes from channel g on. */
    function From(g: nat): (n: nat)
      requires g <= channels
      ensures g == 0 ==> n == Width()
    {
      (channels - g) * bytes
    }
  }

  /** The complete frames of w bytes in s; a partial one at the end is dropped. */
  function Frames(s: seq<byte>, w: nat): (fs: seq<seq<byte>>)
    requires w > 0
    ensures forall f :: f in fs ==> |f| == w
    decreases |s|
  {
    if |s| < w then [] else [s[..w]] + Frames(s[w..], w)
  }

  function Bytes(fs: seq<seq<byte>>): seq<byte> {
    if fs == [] then [] else fs[0] + Bytes(fs[1..])
  }

  lemma {:induction false} FramesOfBytes(fs: seq<seq<byte>>, w: nat)
    requires w > 0 && forall f :: f in fs ==> |f| == w
    ensures Frames(Bytes(fs), w) == fs
    decreases |fs|
  {
    if fs != [] {
      var s := Bytes(fs);
      assert fs[0] in fs;
      assert s[..w] == fs[0] && s[w..] == Bytes(fs[1..]);
      forall f | f in fs[1..] ensures |f| == w {
        assert f in fs;
      }
      FramesOfBytes(fs[1..], w);
    }
  }

  lemma {:induction false} BytesOfFrames(s: seq<byte>, w: nat)
    requires w > 0
    ensures Bytes(Frames(s, w)) <= s
    ensures |s| - w < |Bytes(Frames(s, w))| == |Frames(s, w)| * w
    decreases |s|
  {
    if |s| >= w {
      BytesOfFrames(s[w..], w);
      var rest := Frames(s[w..], w);
      assert Frames(s, w)[1..] == rest;
      assert s == s[..w] + s[w..];
      assert (|rest| + 1) * w == |rest| * w + w;
    }
  }

  /** Interpolation: the frame at step i between two frames. Its values are not modelled. */
  type Between = (seq<byte>, seq<byte>, nat) -> seq<byte>

  ghost predicate KeepsWidth(mid: Between, w: nat) {
    forall a: seq<byte>, b: seq<byte>, i: nat :: |a| == |b| == w ==> |mid(a, b, i)| == w
  }

  /** The frames i, ..., factor - 1 between a and b. */
  function Inserted(mid: Between, a: seq<byte>, b: seq<byte>, i: nat, factor: nat): (fs: seq<seq<byte>>)
    ensures |fs| == if i < factor then factor - i else 0
    decreases factor - i
  {
    if i < factor then [mid(a, b, i)] + Inserted(mid, a, b, i + 1, factor) else []
  }

  /** What follows the frame prev when the stream is slowed down (lines 442-455). */
  function SlowedAfter(mid: Between, prev: seq<byte>, fs: seq<seq<byte>>, factor: nat): seq<seq<byte>>
    decreases |fs|
  {
    if fs == [] then [] else Inserted(mid, prev, fs[0], 1, factor) + [fs[0]] + SlowedAfter(mid, fs[0], fs[1..], factor)
  }

  function Slowed(mid: Between, fs: seq<seq<byte>>, factor: nat): seq<seq<byte>> {
    if fs == [] then [] else [fs[0]] + SlowedAfter(mid, fs[0], fs[1..], factor)
  }

  predicate Due(counter: nat, factor: nat)
    requires factor > 0
  {
    counter % factor == 0
  }

  /** Every factor-th frame, the first being number counter (lines 420-426). */
  function Sped(fs: seq<seq<byte>>, counter: nat, factor: nat): seq<seq<byte>>
    requires factor > 0
  {
    if fs == [] then [] else (if Due(counter, factor) then [fs[0]] else []) + Sped(fs[1..], counter + 1, factor)
  }

  lemma {:induction false} SlowedLength(mid: Between, prev: seq<byte>, fs: seq<seq<byte>>, factor: nat)
    requires factor > 0
    ensures |SlowedAfter(mid, prev, fs, factor)| == |fs| * factor
    decreases |fs|
  {
    if fs != [] {
      SlowedLength(mid, fs[0], fs[1..], factor);
      assert |fs| * factor == (|fs| - 1) * factor + factor;
    }
  }

  /** Frames that are not due are dropped. */
  lemma {:induction false} SpedSkips(gs: seq<seq<byte>>, fs: seq<seq<byte>>, c: nat, factor: nat)
    requires factor > 0 && forall i :: c <= i < c + |gs| ==> !Due(i, factor)
    ensures Sped(gs + fs, c, factor) == Sped(fs, c + |gs|, factor)
    decreases |gs|
  {
    if gs == [] {
      assert gs + fs == fs;
    } else {
      assert (gs + fs)[1..] == gs[1..] + fs;
      SpedSkips(gs[1..], fs, c + 1, factor);
    }
  }

  lemma {:induction false} SpedAfterSlowed(mid: Between, prev: seq<byte>, fs: seq<seq<byte>>, m: nat, factor: nat)
    requires factor > 0
    ensures Sped(SlowedAfter(mid, prev, fs, factor), m * factor + 1, factor) == fs
    decreases |fs|
  {
    hide Due;
    if fs != [] {
      var gs := Inserted(mid, prev, fs[0], 1, factor);
      var tail := SlowedAfter(mid, fs[0], fs[1..], factor);
      var c := m * factor + 1;
      forall i | c <= i < c + |gs| ensures !Due(i, factor) {
        NotDue(m, factor, i - m * factor);
      }
      assert gs + [fs[0]] + tail == gs + ([fs[0]] + tail);
      SpedSkips(gs, [fs[0]] + tail, c, factor);
      assert c + |gs| == (m + 1) * factor;
      NotDue(m + 1, factor, 0);
      assert ([fs[0]] + tail)[1..] == tail;
      SpedAfterSlowed(mid, fs[0], fs[1..], m + 1, factor);
    }
  }

  lemma MultipleSize(k: int, d: int)
    requires d > 0
    ensures k >= 1 ==> k * d >= d
    ensures k <= -1 ==> k * d <= -d
  {
    if k >= 1 {
      assert (k - 1) * d >= 0;
    } else if k <= -1 {
      assert (-k - 1) * d >= 0;
    }
  }

  lemma ModUnique(n: nat, d: nat, q: int, r: int)
    requires 0 <= r < d && n == q * d + r
    ensures n % d == r
  {
    var k := n / d - q;
    assert n == n / d * d + n % d;
    assert k * d == n / d * d - q * d;
    MultipleSize(k, d);
  }

  lemma NotDue(m: nat, factor: nat, r: nat)
    requires r < factor
    ensures Due(m * factor + r, factor) <==> r == 0
  {
    ModUnique(m * factor + r, factor, m, r);
  }

  /** Slowing a stream down and speeding it up again gives the stream back. */
  lemma SpeedUpUndoesSlowDown(mid: Between, fs: seq<seq<byte>>, factor: nat)
    requires factor > 0
    ensures Sped(Slowed(mid, fs, factor), 0, factor) == fs
    ensures |Slowed(mid, fs, factor)| == if fs == [] then 0 else (|fs| - 1) * factor + 1
  {
    if fs != [] {
      var tail := SlowedAfter(mid, fs[0], fs[1..], factor);
      assert ([fs[0]] + tail)[1..] == tail;
      SpedAfterSlowed(mid, fs[0], fs[1..], 0, factor);
      SlowedLength(mid, fs[0], fs[1..], factor);
    }
  }

  /** myrand, on the 64-bit state next. */
  function NextSeed(next: nat): nat {
    (next * 1103515245 + 12345) % 0x1_0000_0000_0000_0000
  }

  function Rand(next: nat): (r: nat)
    ensures r < 0x100
  {
    next / 65536 % 0x1_0000_0000 % 32768 / 128
  }

  /** The state after n calls of myrand. */
  function SeedAfter(next: nat, n: nat): nat {
    if n == 0 then next else NextSeed(SeedAfter(next, n - 1))
  }

  /** The top eight bits of the number that the i-th call from now on returns. */
  function RandByte(next: nat, i: nat): byte {
    Rand(SeedAfter(next, i)) as bv32
  }

  function RandBytes(next: nat, n: nat): (s: seq<byte>)
    ensures |s| == n && forall j :: 0 <= j < n ==> s[j] == RandByte(next, j + 1)
  {
    seq(n, j requires 0 <= j => RandByte(next, j + 1))
  }

  /** The first n bytes of a sample as one number, most significant first (lines 470-474). */
  function Joined(s: seq<byte>, n: nat): bv32
    requires n <= |s|
  {
    if n == 0 then 0 else Joined(s, n - 1) * 256 + s[n - 1]
  }

  /** myrand32: the bytes of four calls of myrand, the first one most significant. */
  function Rand32(next: nat): (r: bv32) {
    Joined(RandBytes(next, 4), 4)
  }

  /** The state after one call of myrand32. */
  function Advanced(next: nat): nat {
    SeedAfter(next, 4)
  }

  /** k << 8 * m. */
  function ShiftBytes(k: bv32, m: nat): bv32
    requires m < 4
  {
    if m == 0 then k else if m == 1 then k << 8 else if m == 2 then k << 16 else k << 24
  }

  lemma TopByte(k: bv32)
    ensures k >> 24 <= 0xff
  {
  }

  /** Byte j of the low b bytes of k (lines 479-480). */
  function ByteOf(k: bv32, b: nat, j: nat): byte
    requires b <= 4 && j < b
  {
    TopByte(ShiftBytes(k, 4 - b + j));
    ShiftBytes(k, 4 - b + j) >> 24
  }

  function Split(k: bv32, b: nat): (s: seq<byte>)
    requires b <= 4
    ensures |s| == b && forall j :: 0 <= j < b ==> s[j] == ByteOf(k, b, j)
  {
    seq(b, j requires 0 <= j < b => ByteOf(k, b, j))
  }

  /** One sample encrypted with the random number r. */
  function CryptSample(s: seq<byte>, r: bv32): (t: seq<byte>)
    requires |s| <= 4
    ensures |t| == |s|
  {
    Split(Joined(s, |s|) ^ r, |s|)
  }

  /** Xor works byte by byte. */
  lemma XorByte(k: bv32, r: bv32, b: nat, j: nat)
    requires b <= 4 && j < b
    ensures ByteOf(k ^ r, b, j) == ByteOf(k, b, j) ^ ByteOf(r, b, j)
  {
    XorTop(k, r);
  }

  lemma XorTop(k: bv32, r: bv32)
    ensures (k ^ r) >> 24 == (k >> 24) ^ (r >> 24)
    ensures ((k ^ r) << 8) >> 24 == ((k << 8) >> 24) ^ ((r << 8) >> 24)
    ensures ((k ^ r) << 16) >> 24 == ((k << 16) >> 24) ^ ((r << 16) >> 24)
    ensures ((k ^ r) << 24) >> 24 == ((k << 24) >> 24) ^ ((r << 24) >> 24)
  {
  }

  lemma XorTwice(x: bv32, y: bv32)
    ensures x ^ y ^ y == x
  {
  }

  /** A joined byte goes to the bottom and moves the others up. */
  lemma JoinStep(k: bv32, c: bv32)
    requires c <= 0xff
    ensures ((k * 256 + c) << 24) >> 24 == c
    ensures ((k * 256 + c) << 16) >> 24 == (k << 24) >> 24
    ensures ((k * 256 + c) << 8) >> 24 == (k << 16) >> 24
    ensures (k * 256 + c) >> 24 == (k << 8) >> 24
  {
  }

  /** Splitting undoes joining. */
  lemma {:induction false} SplitJoined(s: seq<byte>, n: nat, j: nat)
    requires j < n <= |s| && n <= 4
    ensures ByteOf(Joined(s, n), n, j) == s[j]
    decreases n
  {
    JoinStep(Joined(s, n - 1), s[n - 1]);
    if j < n - 1 {
      SplitJoined(s, n - 1, j);
      Moved(Joined(s, n - 1), s[n - 1], n, j);
    }
  }

  lemma Moved(k: bv32, c: bv32, n: nat, j: nat)
    requires c <= 0xff && j + 1 < n <= 4
    ensures ByteOf(k * 256 + c, n, j) == ByteOf(k, n - 1, j)
  {
    JoinStep(k, c);
  }

  /** Each byte of a sample is xored with the byte of the random number at its place. */
  lemma CryptByte(s: seq<byte>, r: bv32, j: nat)
    requires j < |s| <= 4
    ensures CryptSample(s, r)[j] == s[j] ^ ByteOf(r, |s|, j)
  {
    var k := Joined(s, |s|);
    assert CryptSample(s, r) == Split(k ^ r, |s|);
    assert CryptSample(s, r)[j] == ByteOf(k ^ r, |s|, j);
    CryptOneByte(s, k, r, j);
  }

  lemma CryptOneByte(s: seq<byte>, k: bv32, r: bv32, j: nat)
    requires j < |s| <= 4 && k == Joined(s, |s|)
    ensures ByteOf(k ^ r, |s|, j) == s[j] ^ ByteOf(r, |s|, j)
  {
    hide ByteOf, Joined;
    XorByte(k, r, |s|, j);
    SplitJoined(s, |s|, j);
  }

  /** Encrypting twice with one random number gives the sample back. */
  lemma CryptSampleTwice(s: seq<byte>, r: bv32)
    requires |s| <= 4
    ensures CryptSample(CryptSample(s, r), r) == s
  {
    hide ByteOf, CryptSample;
    var t := CryptSample(s, r);
    forall j | 0 <= j < |s| ensures CryptSample(t, r)[j] == s[j] {
      CryptByte(s, r, j);
      CryptByte(t, r, j);
      XorTwice(s[j], ByteOf(r, |s|, j));
    }
  }

  /** The frame f encrypted from channel g on (lines 468-483), and the state after it. */
  function CryptChannels(f: seq<byte>, g: nat, fmt: Format, next: nat): (r: (seq<byte>, nat))
    requires fmt.Valid() && g <= fmt.channels && |f| == fmt.From(g)
    ensures |r.0| == |f|
    decreases fmt.channels - g
  {
    if g == fmt.channels then ([], next)
    else
      Times(fmt.channels - g - 1, fmt.bytes);
      var (rest, last) := CryptChannels(f[fmt.bytes..], g + 1, fmt, Advanced(next));
      (CryptSample(f[..fmt.bytes], Rand32(next)) + rest, last)
  }

  lemma Times(n: nat, b: nat)
    ensures (n + 1) * b == n * b + b >= b
  {
  }

  function CryptFrames(fs: seq<seq<byte>>, fmt: Format, next: nat): (r: seq<seq<byte>>)
    requires fmt.Valid() && forall f :: f in fs ==> |f| == fmt.Width()
    ensures |r| == |fs| && forall f :: f in r ==> |f| == fmt.Width()
    decreases |fs|
  {
    if fs == [] then [] else
      assert fs[0] in fs && |fs[0]| == fmt.Width();
      var (f, last) := CryptChannels(fs[0], 0, fmt, next);
      [f] + CryptFrames(fs[1..], fmt, last)
  }

  lemma {:induction false} CryptChannelsTwice(f: seq<byte>, g: nat, fmt: Format, next: nat)
    requires fmt.Valid() && g <= fmt.channels && |f| == fmt.From(g)
    ensures var (c, last) := CryptChannels(f, g, fmt, next);
      CryptChannels(c, g, fmt, next) == (f, last)
    decreases fmt.channels - g
  {
    hide CryptSample, Rand32, Advanced;
    if g < fmt.channels {
      Times(fmt.channels - g - 1, fmt.bytes);
      var s, r := f[..fmt.bytes], Rand32(next);
      CryptSampleTwice(s, r);
      CryptChannelsTwice(f[fmt.bytes..], g + 1, fmt, Advanced(next));
      var (c, last) := CryptChannels(f, g, fmt, next);
      assert c[..fmt.bytes] == CryptSample(s, r);
      assert c[fmt.bytes..] == CryptChannels(f[fmt.bytes..], g + 1, fmt, Advanced(next)).0;
      assert f == s + f[fmt.bytes..];
    }
  }

  /** Encrypting twice with the same key gives the frames back. */
  lemma {:induction false} CryptTwice(fs: seq<seq<byte>>, fmt: Format, key: nat)
    requires fmt.Valid() && forall f :: f in fs ==> |f| == fmt.Width()
    ensures CryptFrames(CryptFrames(fs, fmt, key), fmt, key) == fs
    decreases |fs|
  {
    hide CryptChannels;
    if fs != [] {
      assert fs[0] in fs;
      CryptChannelsTwice(fs[0], 0, fmt, key);
      var (c, last) := CryptChannels(fs[0], 0, fmt, key);
      CryptTwice(fs[1..], fmt, last);
      var all := CryptFrames(fs, fmt, key);
      assert all[0] == c && all[1..] == CryptFrames(fs[1..], fmt, last);
    }
  }

  /** The same for whole streams of complete frames. */
  lemma CryptStreamTwice(s: seq<byte>, fmt: Format, key: nat)
    requires fmt.Valid() && fmt.Width() > 0
    ensures var t := Bytes(CryptFrames(Frames(s, fmt.Width()), fmt, key));
      Bytes(CryptFrames(Frames(t, fmt.Width()), fmt, key)) == Bytes(Frames(s, fmt.Width())) <= s
    ensures |s| % fmt.Width() == 0 ==> Bytes(Frames(s, fmt.Width())) == s
  {
    var w := fmt.Width();
    var fs := Frames(s, w);
    FramesOfBytes(CryptFrames(fs, fmt, key), w);
    CryptTwice(fs, fmt, key);
    BytesOfFrames(s, w);
    if |s| % w == 0 {
      WholeFrames(s, w);
    }
  }

  /** Without a partial frame at the end nothing is dropped. */
  lemma WholeFrames(s: seq<byte>, w: nat)
    requires w > 0 && |s| % w == 0
    ensures Bytes(Frames(s, w)) == s
  {
    BytesOfFrames(s, w);
    ExactMultiple(|s|, w, |Frames(s, w)|);
  }

  lemma ExactMultiple(l: nat, w: nat, n: nat)
    requires w > 0 && l % w == 0 && l - w < n * w <= l
    ensures n * w == l
  {
    var q := l / w;
    assert l == q * w;
    assert (q - n) * w == q * w - n * w;
    MultipleSize(q - n, w);
  }

  lemma SpeedUpStream(mid: Between, s: seq<byte>, w: nat, factor: nat)
    requires w > 0 && factor > 0 && KeepsWidth(mid, w)
    ensures var t := Bytes(Slowed(mid, Frames(s, w), factor));
      Bytes(Sped(Frames(t, w), 0, factor)) == Bytes(Frames(s, w))
  {
    var fs := Frames(s, w);
    SlowedWidth(mid, fs, w, factor);
    FramesOfBytes(Slowed(mid, fs, factor), w);
    SpeedUpUndoesSlowDown(mid, fs, factor);
  }

  lemma {:induction false} InsertedWidth(mid: Between, a: seq<byte>, b: seq<byte>, i: nat, factor: nat, w: nat)
    requires KeepsWidth(mid, w) && |a| == |b| == w
    ensures forall f :: f in Inserted(mid, a, b, i, factor) ==> |f| == w
    decreases factor - i
  {
    if i < factor {
      InsertedWidth(mid, a, b, i + 1, factor, w);
    }
  }

  lemma {:induction false} SlowedAfterWidth(mid: Between, prev: seq<byte>, fs: seq<seq<byte>>, w: nat, factor: nat)
    requires KeepsWidth(mid, w) && |prev| == w && forall f :: f in fs ==> |f| == w
    ensures forall f :: f in SlowedAfter(mid, prev, fs, factor) ==> |f| == w
    decreases |fs|
  {
    if fs != [] {
      assert fs[0] in fs;
      InsertedWidth(mid, prev, fs[0], 1, factor, w);
      SlowedAfterWidth(mid, fs[0], fs[1..], w, factor);
    }
  }

  lemma SlowedWidth(mid: Between, fs: seq<seq<byte>>, w: nat, factor: nat)
    requires KeepsWidth(mid, w) && forall f :: f in fs ==> |f| == w
    ensures forall f :: f in Slowed(mid, fs, factor) ==> |f| == w
  {
    if fs != [] {
      assert fs[0] in fs;
      SlowedAfterWidth(mid, fs[0], fs[1..], w, factor);
    }
  }
}
