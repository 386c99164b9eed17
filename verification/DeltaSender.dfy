/** Converting a channel's pixels and sending only the part that changed. */
module DeltaSender {
  import opened Bytes
  import opened OutputGroups

  type Pixel = seq<byte>

  /** A channel's buffer as pixels of stride bytes. */
  function PixelAt(buffer: seq<byte>, stride: nat, p: nat): Pixel
    requires (p + 1) * stride <= |buffer|
  {
    buffer[p * stride..(p + 1) * stride]
  }

  function Pixels(buffer: seq<byte>, stride: nat, n: nat): (pixels: seq<Pixel>)
    requires n * stride <= |buffer|
    ensures |pixels| == n
  {
    seq(n, p requires 0 <= p < n => (Inside(p, n, stride); PixelAt(buffer, stride, p)))
  }

  lemma Inside(p: nat, n: nat, stride: nat)
    requires p < n
    ensures (p + 1) * stride <= n * stride
    ensures p * stride + stride == (p + 1) * stride
  {
  }

  // ---- converting ----

  /** Keeps the last frame and converts the new one. */
  method ConvertPixels(fb: seq<HSIPixel>, fbOffset: nat, numPixels: nat, stride: nat, convert: HSIPixel -> seq<byte>,
                       channelBuffer: array<byte>, prevChannelBuffer: array?<byte>)
    requires fbOffset + numPixels <= |fb| && forall p :: |convert(p)| == stride
    requires channelBuffer.Length == numPixels * stride && channelBuffer != prevChannelBuffer
    requires prevChannelBuffer != null ==> prevChannelBuffer.Length == numPixels * stride
    modifies channelBuffer, prevChannelBuffer
    ensures prevChannelBuffer != null ==> prevChannelBuffer[..] == old(channelBuffer[..])
    ensures Pixels(channelBuffer[..], stride, numPixels)
         == seq(numPixels, i requires 0 <= i < numPixels => convert(fb[fbOffset + i]))
  {
    if prevChannelBuffer != null {
      forall k | 0 <= k < channelBuffer.Length {
        prevChannelBuffer[k] := channelBuffer[k];
      }
      assert prevChannelBuffer[..] == channelBuffer[..];
    }
    var at := 0;
    for i := 0 to numPixels
      invariant at == i * stride <= channelBuffer.Length
      invariant Pixels(channelBuffer[..at], stride, i) == seq(i, j requires 0 <= j < i => convert(fb[fbOffset + j]))
      invariant prevChannelBuffer != null ==> prevChannelBuffer[..] == old(channelBuffer[..])
    {
      Inside(i, numPixels, stride);
      ghost var before := channelBuffer[..at];
      var out := convert(fb[fbOffset + i]);
      forall k | 0 <= k < stride {
        channelBuffer[at + k] := out[k];
      }
      assert channelBuffer[..at + stride] == before + out;
      PixelsSnoc(before, out, stride, i);
      at := at + stride;
    }
    assert channelBuffer[..at] == channelBuffer[..];
  }

  /** In bytes: converted pixel after converted pixel, each in the order the conversion gives. */
  lemma ConvertedByte(buffer: seq<byte>, fb: seq<HSIPixel>, at: nat, n: nat, stride: nat,
                      convert: HSIPixel -> seq<byte>, p: nat, b: nat)
    requires at + n <= |fb| && |buffer| == n * stride && forall x :: |convert(x)| == stride
    requires Pixels(buffer, stride, n) == seq(n, i requires 0 <= i < n => convert(fb[at + i]))
    requires p < n && b < stride
    ensures p * stride + b < |buffer| && buffer[p * stride + b] == convert(fb[at + p])[b]
  {
    assert Pixels(buffer, stride, n)[p] == convert(fb[at + p]);
    hide Pixels;
    ByteOfPixel(buffer, stride, n, p, b);
  }

  lemma ByteOfPixel(buffer: seq<byte>, stride: nat, n: nat, p: nat, b: nat)
    requires |buffer| == n * stride && p < n && b < stride
    ensures p * stride + b < |buffer| && Pixels(buffer, stride, n)[p][b] == buffer[p * stride + b]
  {
    Inside(p, n, stride);
  }

  lemma PixelsSnoc(before: seq<byte>, out: Pixel, stride: nat, n: nat)
    requires |before| == n * stride && |out| == stride
    ensures (n + 1) * stride == |before + out|
    ensures Pixels(before + out, stride, n + 1) == Pixels(before, stride, n) + [out]
  {
    forall p | 0 <= p < n
      ensures (p + 1) * stride <= |before| && PixelAt(before + out, stride, p) == PixelAt(before, stride, p)
    {
      Inside(p, n, stride);
    }
    assert (before + out)[n * stride..(n + 1) * stride] == out;
  }

  // ---- what changed ----

  /** The greatest index at which two frames differ, and 0 if there is none. */
  function LastChanged(prev: seq<Pixel>, cur: seq<Pixel>): (last: nat)
    requires |prev| == |cur|
    ensures last == 0 || last < |cur|
  {
    if cur == [] then 0
    else if prev[|cur| - 1] != cur[|cur| - 1] then |cur| - 1
    else LastChanged(prev[..|cur| - 1], cur[..|cur| - 1])
  }

  lemma {:induction false} LastChangedIs(prev: seq<Pixel>, cur: seq<Pixel>)
    requires |prev| == |cur|
    ensures forall i :: LastChanged(prev, cur) < i < |cur| ==> prev[i] == cur[i]
    ensures LastChanged(prev, cur) > 0 ==> prev[LastChanged(prev, cur)] != cur[LastChanged(prev, cur)]
  {
    if cur != [] && prev[|cur| - 1] == cur[|cur| - 1] {
      LastChangedIs(prev[..|cur| - 1], cur[..|cur| - 1]);
    }
  }

  method Scan(prev: array?<byte>, cur: array<byte>, numPixels: nat, stride: nat) returns (lastChangedPixel: nat)
    requires cur.Length == numPixels * stride
    requires prev != null ==> prev.Length == numPixels * stride
    ensures lastChangedPixel ==
            if prev == null then numPixels
            else LastChanged(Pixels(prev[..], stride, numPixels), Pixels(cur[..], stride, numPixels))
  {
    lastChangedPixel := numPixels;
    if prev != null {
      lastChangedPixel := 0;
      ghost var a, b := Pixels(prev[..], stride, numPixels), Pixels(cur[..], stride, numPixels);
      for pixels := 0 to numPixels
        invariant lastChangedPixel == LastChanged(a[..pixels], b[..pixels])
      {
        Inside(pixels, numPixels, stride);
        assert a[..pixels + 1][..pixels] == a[..pixels] && b[..pixels + 1][..pixels] == b[..pixels];
        var differs := ComparePixel(prev, cur, pixels, stride);
        if differs {
          lastChangedPixel := pixels;
        }
      }
      assert a[..numPixels] == a && b[..numPixels] == b;
    }
  }

  /** The byte loop, which breaks at the first difference. */
  method ComparePixel(prev: array<byte>, cur: array<byte>, p: nat, stride: nat) returns (differs: bool)
    requires (p + 1) * stride <= cur.Length == prev.Length
    ensures differs <==> PixelAt(prev[..], stride, p) != PixelAt(cur[..], stride, p)
  {
    Inside(p, p + 1, stride);
    ghost var at := p * stride;
    differs := false;
    for b := 0 to stride
      invariant !differs
      invariant prev[at..at + b] == cur[at..at + b]
    {
      if prev[p * stride + b] != cur[p * stride + b] {
        assert PixelAt(prev[..], stride, p)[b] != PixelAt(cur[..], stride, p)[b];
        return true;
      }
    }
    assert PixelAt(prev[..], stride, p) == prev[at..at + stride];
    assert PixelAt(cur[..], stride, p) == cur[at..at + stride];
  }

  // ---- whole runs ----

  type Frame = seq<Pixel>

  ghost predicate Run(frames: seq<Frame>, n: nat) {
    |frames| >= 1 && forall t :: 0 <= t < |frames| ==> |frames[t]| == n
  }

  /** How far frame t is sent. */
  function Sent(frames: seq<Frame>, n: nat, t: nat): (last: nat)
    requires Run(frames, n) && 1 <= t < |frames|
    ensures last <= n
  {
    LastChanged(frames[t - 1], frames[t])
  }

  /** A node that holds the first frame and then receives every send. */
  function NodeAfter(frames: seq<Frame>, n: nat): (node: Frame)
    requires Run(frames, n)
    ensures |node| == n
  {
    if |frames| == 1 then frames[0] else
    var t := |frames| - 1;
    var before := NodeAfter(frames[..t], n);
    frames[t][..Sent(frames, n, t)] + before[Sent(frames, n, t)..]
  }

  /** The last frame that was sent beyond pixel i. */
  function Refreshed(frames: seq<Frame>, n: nat, i: nat): (t: nat)
    requires Run(frames, n) && i < n
    ensures t < |frames|
    ensures t > 0 ==> Sent(frames, n, t) > i
    ensures forall u :: t < u < |frames| ==> Sent(frames, n, u) <= i
  {
    var t := |frames| - 1;
    if t == 0 || Sent(frames, n, t) > i then t else
    var s := Refreshed(frames[..t], n, i);
    assert forall u :: 1 <= u < t ==> Sent(frames[..t], n, u) == Sent(frames, n, u);
    s
  }

  /** Every pixel of the node is that of the last frame sent beyond it. */
  lemma {:induction false} NodePixel(frames: seq<Frame>, n: nat, i: nat)
    requires Run(frames, n) && i < n
    ensures NodeAfter(frames, n)[i] == frames[Refreshed(frames, n, i)][i]
  {
    if |frames| > 1 {
      NodePixel(frames[..|frames| - 1], n, i);
    }
  }

  lemma NodeStep(frames: seq<Frame>, n: nat, i: nat)
    requires Run(frames, n) && i < n
    ensures var t := |frames| - 1;
            NodeAfter(frames, n)[i] ==
            if t == 0 || i < Sent(frames, n, t) then frames[t][i] else NodeAfter(frames[..t], n)[i]
  {
  }

  lemma SentBefore(frames: seq<Frame>, n: nat, t: nat, u: nat)
    requires Run(frames, n) && 1 <= u < t <= |frames|
    ensures Sent(frames[..t], n, u) == Sent(frames, n, u)
  {
  }

  lemma SentReaches(frames: seq<Frame>, n: nat, t: nat, i: nat)
    requires Run(frames, n) && 1 <= t < |frames| && i < n
    ensures frames[t][i] != frames[t - 1][i] ==> i <= Sent(frames, n, t)
  {
    LastChangedIs(frames[t - 1], frames[t]);
  }

  /** A stale pixel was once the last changed one, and no later frame was sent beyond it. */
  lemma {:induction false} StalePixel(frames: seq<Frame>, n: nat, i: nat) returns (t: nat)
    requires Run(frames, n) && i < n
    requires NodeAfter(frames, n)[i] != frames[|frames| - 1][i]
    ensures 1 <= t < |frames|
    ensures Sent(frames, n, t) == i && frames[t][i] != frames[t - 1][i]
    ensures forall u :: t < u < |frames| ==> Sent(frames, n, u) <= i
  {
    hide NodeAfter;
    hide Sent;
    var last := |frames| - 1;
    NodeStep(frames, n, i);
    SentReaches(frames, n, last, i);
    t := last;
    if frames[t][i] == frames[t - 1][i] {
      t := StalePixel(frames[..last], n, i);
      forall u | 1 <= u < last
        ensures Sent(frames[..last], n, u) == Sent(frames, n, u)
      {
        SentBefore(frames, n, last, u);
      }
    }
  }

  /** A pixel is stale exactly when it changed since the last frame sent beyond it. */
  lemma StaleExactly(frames: seq<Frame>, n: nat, i: nat)
    requires Run(frames, n) && i < n
    ensures NodeAfter(frames, n)[i] != frames[|frames| - 1][i] <==>
        frames[Refreshed(frames, n, i)][i] != frames[|frames| - 1][i]
  {
    NodePixel(frames, n, i);
  }

  /** At the end of a run the whole node is in sync exactly when, of the pixels that were ever the last
      changed one, each is in the last frame what it was in the last frame sent beyond it. */
  lemma InSyncExactly(frames: seq<Frame>, n: nat)
    requires Run(frames, n)
    ensures NodeAfter(frames, n) == frames[|frames| - 1] <==>
            forall t :: 1 <= t < |frames| && Sent(frames, n, t) < n ==>
              frames[Refreshed(frames, n, Sent(frames, n, t))][Sent(frames, n, t)]
              == frames[|frames| - 1][Sent(frames, n, t)]
  {
    hide NodeAfter;
    hide Sent;
    hide Refreshed;
    var last := frames[|frames| - 1];
    forall t | 1 <= t < |frames| && Sent(frames, n, t) < n
      ensures NodeAfter(frames, n)[Sent(frames, n, t)]
           == frames[Refreshed(frames, n, Sent(frames, n, t))][Sent(frames, n, t)]
    {
      NodePixel(frames, n, Sent(frames, n, t));
    }
    if i :| 0 <= i < n && NodeAfter(frames, n)[i] != last[i] {
      var t := StalePixel(frames, n, i);
      assert Sent(frames, n, t) == i;
    }
  }

  /** Because the last changed pixel is itself left out, a node in sync stays in sync through a frame
      exactly when nothing changed in it. */
  lemma InSyncOnlyIfUnchanged(before: Frame, after: Frame)
    requires |before| == |after|
    ensures NodeAfter([before, after], |after|) == after <==> before == after
  {
    hide NodeAfter;
    var frames, n := [before, after], |after|;
    assert frames[..1] == [before];
    forall i | 0 <= i < n
      ensures NodeAfter(frames, n)[i] == if i < Sent(frames, n, 1) then after[i] else before[i]
    {
      NodeStep(frames, n, i);
      NodeStep([before], n, i);
    }
    var last := Sent(frames, n, 1);
    LastChangedIs(before, after);
    if n > 0 {
      assert NodeAfter(frames, n)[last] == before[last];
    }
  }
}
