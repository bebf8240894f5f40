/** The frame loops of recode with their buffers (hw1/src/hw1.c:412-487, 657-684, 744-751). */
module Audio {
  import opened Sequences
  import opened AudioFrames

  /** hw1/src/myrand.c:22-25; the result is 15 bits wide. */
  method MyRand(next: nat) returns (r: nat, next2: nat)
    ensures next2 == NextSeed(next) && r / 128 == Rand(next2) && r < 32768
  {
    next2 := (next * 1103515245 + 12345) % 0x1_0000_0000_0000_0000;
    r := next2 / 65536 % 0x1_0000_0000 % 32768;
  }

  /** hw1/src/myrand.c:39-45. Byte j of the number, from the top, is that of call j + 1. */
  method MyRand32(next: nat) returns (r: bv32, next2: nat)
    ensures forall j: nat :: j < 4 ==> ByteOf(r, 4, j) == RandByte(next, j + 1)
    ensures r == Rand32(next) && next2 == Advanced(next)
  {
    hide ByteOf, NextSeed, Rand;
    r, next2 := 0, next;
    ghost var s := RandBytes(next, 4);
    for i := 0 to 4
      invariant next2 == SeedAfter(next, i) && r == Joined(s, i)
    {
      var x;
      x, next2 := MyRand(next2);
      var top: byte := (x / 128) as bv32;
      JoinShift(r, top);
      r := (r << 8) | top;
    }
    forall j: nat | j < 4 ensures ByteOf(r, 4, j) == RandByte(next, j + 1) {
      SplitJoined(s, 4, j);
    }
  }

  lemma JoinShift(k: bv32, c: byte)
    ensures (k << 8) | c == k * 256 + c
  {
  }

  class Recoder {
    const fmt: Format
    const previous: array<byte>        // previous_frame, input_frame and output_frame
    const current: array<byte>
    const created: array<byte>
    var input: seq<byte>               // what is left of the standard input
    var output: seq<byte>

    ghost predicate Valid() {
      && fmt.Valid() && fmt.Width() <= 8
      && previous.Length == current.Length == created.Length == 8
      && previous != current && previous != created && current != created
    }

    constructor (fmt: Format, input: seq<byte>)
      requires fmt.Valid()
      ensures Valid() && this.fmt == fmt && this.input == input && this.output == []
      ensures fresh(previous) && fresh(current) && fresh(created)
    {
      this.fmt := fmt;
      previous, current, created := new byte[8], new byte[8], new byte[8];
      this.input, this.output := input, [];
      new;
      WidthFits(fmt);
    }

    lemma Parts()
      requires Valid()
      ensures fmt.Valid() && 0 < fmt.Width() <= 8 && previous.Length == current.Length == created.Length == 8
      ensures previous != current && previous != created && current != created
    {
    }

    /** Lines 657-671. At the end of the input a partial frame is read and dropped. */
    method ReadFrame(fp: array<byte>) returns (ok: bool)
      requires Valid() && fp.Length == 8
      modifies `input, fp
      ensures ok == (|old(input)| >= fmt.Width())
      ensures ok ==> fp[..fmt.Width()] == old(input)[..fmt.Width()] && input == old(input)[fmt.Width()..]
      ensures !ok ==> input == []
    {
      for j := 0 to fmt.channels * fmt.bytes
        invariant j <= |old(input)| && input == old(input)[j..] && fp[..j] == old(input)[..j]
      {
        if input == [] {
          return false;
        }
        fp[j] := input[0];
        input := input[1..];
      }
      return true;
    }

    /** Lines 673-684. */
    method WriteFrame(fp: array<byte>)
      requires Valid() && fp.Length == 8
      modifies `output
      ensures output == old(output) + fp[..fmt.Width()]
    {
      for j := 0 to fmt.channels * fmt.bytes
        invariant output == old(output) + fp[..j]
      {
        output := output + [fp[j]];
      }
    }

    /** Lines 744-751. */
    method FrameCpy(dest: array<byte>, src: array<byte>)
      requires Valid() && dest.Length == src.Length == 8 && dest != src
      modifies dest
      ensures dest[..fmt.Width()] == src[..fmt.Width()]
    {
      for i := 0 to fmt.channels * fmt.bytes
        invariant dest[..i] == src[..i]
      {
        dest[i] := src[i];
      }
    }

    /** Lines 420-426. */
    method SpeedUp(factor: nat)
      requires Valid() && factor > 0
      modifies `input, `output, current
      ensures output == old(output) + SpedBytes(old(input), fmt.Width(), 0, factor)
    {
      hide *;
      Parts();
      var w := fmt.Width();
      var counter := 0;
      ghost var left, goal := input, output + SpedBytes(input, w, 0, factor);
      var more := ReadFrame(current);
      while more
        invariant more == (|left| >= w) && (more ==> current[..w] == left[..w] && input == left[w..])
        invariant output + SpedBytes(left, w, counter, factor) == goal
        decreases |left|
      {
        SpedStep(left, w, counter, factor);
        if counter % factor == 0 {
          WriteFrame(current);
        }
        counter := counter + 1;
        left := input;
        more := ReadFrame(current);
      }
      SpedStep(left, w, counter, factor);
    }

    /** Lines 447-450. */
    method WriteBetween(mid: Between, factor: nat)
      requires Valid() && factor > 0 && KeepsWidth(mid, fmt.Width())
      modifies `output, created
      ensures output == old(output) + InsertedBytes(mid, previous[..fmt.Width()], current[..fmt.Width()], 1, factor)
    {
      hide *;
      Parts();
      ghost var a, b := previous[..fmt.Width()], current[..fmt.Width()];
      ghost var goal := output + InsertedBytes(mid, a, b, 1, factor);
      for i := 1 to factor
        invariant previous[..fmt.Width()] == a && current[..fmt.Width()] == b
        invariant output + InsertedBytes(mid, a, b, i, factor) == goal
      {
        InsertedStep(mid, a, b, i, factor);
        CalcuFrame(mid, i);
        WriteFrame(created);
      }
      InsertedStep(mid, a, b, factor, factor);
    }

    /** Lines 437-455, with calcu_frame taken as mid. */
    method SlowDown(mid: Between, factor: nat)
      requires Valid() && factor > 0 && KeepsWidth(mid, fmt.Width())
      modifies `input, `output, previous, current, created
      ensures output == old(output) + SlowedBytes(mid, old(input), fmt.Width(), factor)
    {
      hide *;
      Parts();
      var w := fmt.Width();
      ghost var goal := output + SlowedBytes(mid, input, w, factor);
      SlowedStarts(mid, output, input, w, factor, goal);
      var counter := ReadFrame(previous);
      if counter {
        WriteFrame(previous);
      }
      while counter
        invariant counter ==> output + SlowedBytesAfter(mid, previous[..w], input, w, factor) == goal
        invariant !counter ==> output == goal
        decreases |input|, counter
      {
        SlowedGoesOn(mid, output, previous[..w], input, w, factor, goal);
        counter := ReadFrame(current);
        if !counter {
          break;
        }
        WriteBetween(mid, factor);
        WriteFrame(current);
        FrameCpy(previous, current);
      }
    }

    /** Lines 470-474. */
    method JoinBytes(at: nat) returns (k: bv32)
      requires Valid() && at + fmt.bytes <= 8
      ensures k == Joined(current[at..at + fmt.bytes], fmt.bytes)
    {
      ghost var s := current[at..at + fmt.bytes];
      k := 0;
      for j := 0 to fmt.bytes
        invariant k == Joined(s, j)
      {
        k := k * 256;
        k := k + current[j + at];
        assert current[j + at] == s[j];
      }
    }

    /** Lines 478-482. */
    method SplitBytes(at: nat, k: bv32)
      requires Valid() && at + fmt.bytes <= 8
      modifies created
      ensures created[at..at + fmt.bytes] == Split(k, fmt.bytes)
      ensures created[..at] == old(created[..at])
    {
      hide ByteOf, Split;
      ghost var was, t := created[..at], Split(k, fmt.bytes);
      for j := 0 to fmt.bytes
        invariant created[..at] == was
        invariant forall i :: 0 <= i < j ==> created[at + i] == t[i]
      {
        created[at + j] := ByteOf(k, fmt.bytes, j);
      }
    }

    /** Lines 469-482: one channel with one random number. */
    method CryptChannel(at: nat, prng: bv32)
      requires Valid() && at + fmt.bytes <= 8
      modifies created
      ensures created[..at + fmt.bytes] == old(created[..at]) + CryptSample(current[at..at + fmt.bytes], prng)
    {
      hide CryptSample, Split, Joined;
      var k := JoinBytes(at);
      SampleIsSplit(current[at..at + fmt.bytes], prng);
      SplitBytes(at, k ^ prng);
      assert created[..at + fmt.bytes] == created[..at] + created[at..at + fmt.bytes];
    }

    /** Lines 468-483. */
    method CryptFrame(next: nat) returns (next2: nat)
      requires Valid()
      modifies created
      ensures created[..fmt.Width()] == CryptChannels(current[..fmt.Width()], 0, fmt, next).0
      ensures next2 == CryptChannels(current[..fmt.Width()], 0, fmt, next).1
    {
      hide CryptChannels, CryptSample, Rand32, Advanced, Leads;
      var b := fmt.bytes;
      ghost var left := current[..fmt.Width()];
      ghost var goal := CryptChannels(left, 0, fmt, next);
      next2 := next;
      var at := 0;
      NoneDone(left, fmt, next);
      assert created[..0] == [];
      for g := 0 to fmt.channels
        invariant at == g * b && at + fmt.From(g) == fmt.Width()
        invariant left == current[at..fmt.Width()] && Leads(created[..at], left, g, fmt, next2, goal)
      {
        ChannelAt(fmt, g);
        OneChannel(created[..at], left, g, fmt, next2, goal);
        var prng;
        prng, next2 := MyRand32(next2);
        CryptChannel(at, prng);
        assert left[..b] == current[at..at + b];
        at := at + b;
        left := left[b..];
      }
      AllChannels(created[..at], left, fmt, next2, goal);
    }

    /** Lines 468-484. */
    method WriteCrypted(next: nat) returns (next2: nat)
      requires Valid()
      modifies `output, created
      ensures output == old(output) + CryptChannels(current[..fmt.Width()], 0, fmt, next).0
      ensures next2 == CryptChannels(current[..fmt.Width()], 0, fmt, next).1
    {
      hide CryptChannels;
      next2 := CryptFrame(next);
      WriteFrame(created);
    }

    /** Lines 459-485. */
    method Crypt(key: nat)
      requires Valid()
      modifies `input, `output, current, created
      ensures output == old(output) + CryptBytes(old(input), fmt, key)
    {
      hide *;
      Parts();
      var next := key;
      ghost var left, goal := input, output + CryptBytes(input, fmt, key);
      var more := ReadFrame(current);
      while more
        invariant more == (|left| >= fmt.Width())
        invariant more ==> current[..fmt.Width()] == left[..fmt.Width()] && input == left[fmt.Width()..]
        invariant output + CryptBytes(left, fmt, next) == goal
        decreases |left|
      {
        CryptStep(left, fmt, next, output, goal);
        next := WriteCrypted(next);
        left := input;
        more := ReadFrame(current);
      }
      CryptEnd(left, fmt, next);
    }

    /** The place of calcu_frame (lines 686-712). */
    method CalcuFrame(mid: Between, k: nat)
      requires Valid() && KeepsWidth(mid, fmt.Width())
      modifies created
      ensures created[..fmt.Width()] == mid(previous[..fmt.Width()], current[..fmt.Width()], k)
    {
      var frame := mid(previous[..fmt.Width()], current[..fmt.Width()], k);
      for j := 0 to fmt.Width()
        invariant created[..j] == frame[..j]
      {
        created[j] := frame[j];
      }
    }
  }

  lemma WidthFits(fmt: Format)
    requires fmt.Valid()
    ensures 0 < fmt.Width() <= 8
  {
  }

  /** The bytes that Sped leaves of a stream, frames counted from counter. */
  ghost function SpedBytes(s: seq<byte>, w: nat, counter: nat, factor: nat): seq<byte>
    requires w > 0 && factor > 0
  {
    Bytes(Sped(Frames(s, w), counter, factor))
  }

  lemma SpedStep(s: seq<byte>, w: nat, c: nat, factor: nat)
    requires w > 0 && factor > 0
    ensures SpedBytes(s, w, c, factor) ==
      if |s| < w then [] else (if c % factor == 0 then s[..w] else []) + SpedBytes(s[w..], w, c + 1, factor)
  {
    if |s| >= w {
      var rest := Sped(Frames(s[w..], w), c + 1, factor);
      assert Frames(s, w)[1..] == Frames(s[w..], w);
      if Due(c, factor) {
        assert ([s[..w]] + rest)[1..] == rest;
      } else {
        assert [] + rest == rest;
      }
    }
  }

  ghost function SlowedBytes(mid: Between, s: seq<byte>, w: nat, factor: nat): seq<byte>
    requires w > 0
  {
    Bytes(Slowed(mid, Frames(s, w), factor))
  }

  ghost function SlowedBytesAfter(mid: Between, prev: seq<byte>, s: seq<byte>, w: nat, factor: nat): seq<byte>
    requires w > 0
  {
    Bytes(SlowedAfter(mid, prev, Frames(s, w), factor))
  }

  ghost function InsertedBytes(mid: Between, a: seq<byte>, b: seq<byte>, i: nat, factor: nat): seq<byte> {
    Bytes(Inserted(mid, a, b, i, factor))
  }

  lemma SlowedFirst(mid: Between, s: seq<byte>, w: nat, factor: nat)
    requires w > 0
    ensures SlowedBytes(mid, s, w, factor) ==
      if |s| < w then [] else s[..w] + SlowedBytesAfter(mid, s[..w], s[w..], w, factor)
  {
    if |s| >= w {
      var rest := SlowedAfter(mid, s[..w], Frames(s[w..], w), factor);
      assert Frames(s, w)[1..] == Frames(s[w..], w);
      assert ([s[..w]] + rest)[1..] == rest;
    }
  }

  /** The first frame, with out written before it. */
  lemma SlowedStarts(mid: Between, out: seq<byte>, s: seq<byte>, w: nat, factor: nat, goal: seq<byte>)
    requires w > 0 && out + SlowedBytes(mid, s, w, factor) == goal
    ensures if |s| < w then out == goal
            else out + s[..w] + SlowedBytesAfter(mid, s[..w], s[w..], w, factor) == goal
  {
    hide SlowedBytes, SlowedBytesAfter;
    SlowedFirst(mid, s, w, factor);
    if |s| >= w { Regroup(out, s[..w], SlowedBytesAfter(mid, s[..w], s[w..], w, factor)); }
  }

  /** One turn of the loop. */
  lemma SlowedGoesOn(mid: Between, out: seq<byte>, prev: seq<byte>, s: seq<byte>, w: nat, factor: nat, goal: seq<byte>)
    requires w > 0 && out + SlowedBytesAfter(mid, prev, s, w, factor) == goal
    ensures if |s| < w then out == goal
            else out + InsertedBytes(mid, prev, s[..w], 1, factor) + s[..w] +
                 SlowedBytesAfter(mid, s[..w], s[w..], w, factor) == goal
  {
    hide SlowedBytesAfter, InsertedBytes;
    SlowedStep(mid, prev, s, w, factor);
    if |s| >= w {
      var a, b, c := InsertedBytes(mid, prev, s[..w], 1, factor), s[..w],
        SlowedBytesAfter(mid, s[..w], s[w..], w, factor);
      Regroup(out, a + b, c);
      Regroup(out, a, b);
    }
  }

  lemma NextFrame(s: seq<byte>, w: nat)
    requires 0 < w <= |s|
    ensures Frames(s, w) != [] && Frames(s, w)[0] == s[..w] && Frames(s, w)[1..] == Frames(s[w..], w)
  {
  }

  lemma LastFrame(s: seq<byte>, w: nat)
    requires |s| < w
    ensures Frames(s, w) == []
  {
  }

  lemma SlowedStep(mid: Between, prev: seq<byte>, s: seq<byte>, w: nat, factor: nat)
    requires w > 0
    ensures SlowedBytesAfter(mid, prev, s, w, factor) ==
      if |s| < w then []
      else InsertedBytes(mid, prev, s[..w], 1, factor) + s[..w] + SlowedBytesAfter(mid, s[..w], s[w..], w, factor)
  {
    hide Frames, Inserted;
    if |s| < w {
      LastFrame(s, w);
    } else {
      NextFrame(s, w);
      var f := s[..w];
      var rest := SlowedAfter(mid, f, Frames(s[w..], w), factor);
      var between := Inserted(mid, prev, f, 1, factor);
      BytesConcat(between + [f], rest);
      BytesConcat(between, [f]);
      var none: seq<seq<byte>> := [];
      assert [f][1..] == none;
    }
  }

  lemma {:induction false} BytesConcat(fs: seq<seq<byte>>, gs: seq<seq<byte>>)
    ensures Bytes(fs + gs) == Bytes(fs) + Bytes(gs)
    decreases |fs|
  {
    if fs == [] {
      assert fs + gs == gs;
    } else {
      assert (fs + gs)[1..] == fs[1..] + gs;
      BytesConcat(fs[1..], gs);
    }
  }

  lemma InsertedStep(mid: Between, a: seq<byte>, b: seq<byte>, i: nat, factor: nat)
    ensures InsertedBytes(mid, a, b, i, factor) ==
      if i < factor then mid(a, b, i) + InsertedBytes(mid, a, b, i + 1, factor) else []
  {
    if i < factor {
      var rest := Inserted(mid, a, b, i + 1, factor);
      assert ([mid(a, b, i)] + rest)[1..] == rest;
    }
  }

  lemma ChannelAt(fmt: Format, g: nat)
    requires fmt.Valid() && g < fmt.channels
    ensures g * fmt.bytes + fmt.bytes <= fmt.Width() <= 8
    ensures fmt.From(g + 1) + fmt.bytes == fmt.From(g) && g * fmt.bytes + fmt.From(g) == fmt.Width()
    ensures (g + 1) * fmt.bytes == g * fmt.bytes + fmt.bytes
  {
    assert g == 0 || g == 1;
  }

  lemma SampleIsSplit(s: seq<byte>, r: bv32)
    requires |s| <= 4
    ensures CryptSample(s, r) == Split(Joined(s, |s|) ^ r, |s|)
  {
  }

  lemma CryptChannelsStep(f: seq<byte>, g: nat, fmt: Format, next: nat)
    requires fmt.Valid() && g < fmt.channels && |f| == fmt.From(g)
    ensures fmt.bytes <= |f| && |f[fmt.bytes..]| == fmt.From(g + 1) && (g + 1) * fmt.bytes == g * fmt.bytes + fmt.bytes
    ensures var (rest, last) := CryptChannels(f[fmt.bytes..], g + 1, fmt, Advanced(next));
      CryptChannels(f, g, fmt, next) == (CryptSample(f[..fmt.bytes], Rand32(next)) + rest, last)
  {
    ChannelAt(fmt, g);
    hide Rand32, CryptSample, Advanced;
  }

  /** With done written and left to encrypt from channel g on, the frame ends as goal says. */
  ghost predicate Leads(done: seq<byte>, left: seq<byte>, g: nat, fmt: Format, next: nat, goal: (seq<byte>, nat)) {
    && fmt.Valid() && g <= fmt.channels && |left| == fmt.From(g)
    && var r := CryptChannels(left, g, fmt, next);
    done + r.0 == goal.0 && r.1 == goal.1
  }

  lemma NoneDone(left: seq<byte>, fmt: Format, next: nat)
    requires fmt.Valid() && |left| == fmt.Width()
    ensures Leads([], left, 0, fmt, next, CryptChannels(left, 0, fmt, next))
  {
    var r := CryptChannels(left, 0, fmt, next);
    assert [] + r.0 == r.0;
  }

  lemma OneChannel(done: seq<byte>, left: seq<byte>, g: nat, fmt: Format, next: nat, goal: (seq<byte>, nat))
    requires Leads(done, left, g, fmt, next, goal) && g < fmt.channels
    ensures fmt.bytes <= |left| && fmt.bytes <= 4
    ensures Leads(done + CryptSample(left[..fmt.bytes], Rand32(next)), left[fmt.bytes..], g + 1, fmt, Advanced(next),
      goal)
  {
    CryptChannelsStep(left, g, fmt, next);
    hide CryptChannels, CryptSample, Rand32, Advanced;
    var rest := CryptChannels(left[fmt.bytes..], g + 1, fmt, Advanced(next)).0;
    Regroup(done, CryptSample(left[..fmt.bytes], Rand32(next)), rest);
  }

  lemma AllChannels(done: seq<byte>, left: seq<byte>, fmt: Format, next: nat, goal: (seq<byte>, nat))
    requires Leads(done, left, fmt.channels, fmt, next, goal)
    ensures goal == (done, next)
  {
    CryptChannelsEnd(fmt, next);
    assert left == [] && done + [] == done;
  }

  lemma CryptChannelsEnd(fmt: Format, next: nat)
    requires fmt.Valid()
    ensures fmt.From(fmt.channels) == 0 && CryptChannels([], fmt.channels, fmt, next) == ([], next)
  {
  }

  ghost function CryptBytes(s: seq<byte>, fmt: Format, next: nat): seq<byte>
    requires fmt.Valid()
  {
    WidthFits(fmt);
    Bytes(CryptFrames(Frames(s, fmt.Width()), fmt, next))
  }

  lemma CryptStep(s: seq<byte>, fmt: Format, next: nat, done: seq<byte>, goal: seq<byte>)
    requires fmt.Valid() && |s| >= fmt.Width() && done + CryptBytes(s, fmt, next) == goal
    ensures var r := CryptChannels(s[..fmt.Width()], 0, fmt, next);
      done + r.0 + CryptBytes(s[fmt.Width()..], fmt, r.1) == goal
  {
    hide CryptChannels, Frames;
    var w := fmt.Width();
    WidthFits(fmt);
    NextFrame(s, w);
    var fs := Frames(s, w);
    var (f, last) := CryptChannels(s[..w], 0, fmt, next);
    var rest := CryptFrames(fs[1..], fmt, last);
    assert ([f] + rest)[1..] == rest;
    Regroup(done, f, CryptBytes(s[w..], fmt, last));
  }

  lemma CryptEnd(s: seq<byte>, fmt: Format, next: nat)
    requires fmt.Valid() && |s| < fmt.Width()
    ensures CryptBytes(s, fmt, next) == []
  {
  }
}
