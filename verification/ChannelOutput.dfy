/** A channel's turn to send: scan for changes, then hand the changed prefix to the protocol handler. */
module ChannelOutput {
  import opened Bytes
  import opened DeltaSender
  import opened SendBookkeeping
  import Crc32
  import Packet
  import PacketChecksum
  import PH = ProtocolHandler

  /** How many pixels a turn sends. Without an older frame it is all of them. */
  function PixelsToSend(prev: seq<byte>, hasPrev: bool, cur: seq<byte>, numPixels: nat, stride: nat): (last: nat)
    requires |cur| == numPixels * stride && (hasPrev ==> |prev| == |cur|)
    ensures last <= numPixels
  {
    if hasPrev then LastChanged(Pixels(prev, stride, numPixels), Pixels(cur, stride, numPixels)) else numPixels
  }

  lemma PrefixLength(last: nat, n: nat, stride: nat)
    requires last <= n
    ensures stride * last <= n * stride && stride * last == last * stride
  {
  }

  /** A channel without a node, or one in which nothing beyond pixel 0 changed, sends nothing. */
  method OutputPixelData(protocol: PH.ProtocolHandler, lookup: array2<bv32>, node: PH.DbNode?, nodeOffset: bv32,
                         prev: array?<byte>, cur: array<byte>, numPixels: nat, isRGBW: bool, txn: Txn, id: TimerId,
                         delivered: bool)
    returns (out: PH.Outgoing)
    requires Crc32.IsTable(lookup) && id !in protocol.timers
    requires cur.Length == numPixels * PH.Stride(isRGBW) && (prev != null ==> prev.Length == cur.Length)
    modifies protocol, node
    ensures var last := old(PixelsToSend(if prev == null then [] else prev[..], prev != null, cur[..],
                                         numPixels, PH.Stride(isRGBW)));
            if node == null || last == 0
            then out == PH.Nothing && protocol.Writes() == old(protocol.Writes()) && (node != null ==> unchanged(node))
            else && PH.Stride(isRGBW) * last <= cur.Length
                 && node.Backoff() == AfterCall(old(node.Backoff()), delivered)
                 && out == (if Attempts(old(node.Backoff()))
                            then PH.Datagram(PH.FramebufferDatagram(txn, nodeOffset, cur[..PH.Stride(isRGBW) * last],
                                    last, isRGBW))
                            else PH.Nothing)
                 && protocol.Writes() ==
                    if out.Datagram? && delivered then AfterEvent(old(protocol.Writes()), Sent(txn, id))
                        else old(protocol.Writes())
  {
    hide PH.FramebufferDatagram;
    hide AfterEvent;
    hide AfterCall;
    hide Pixels;
    hide LastChanged;
    out := PH.Nothing;
    if node == null {
      return;
    }
    var lastChangedPixel := Scan(prev, cur, numPixels, PH.Stride(isRGBW));
    PrefixLength(lastChangedPixel, numPixels, PH.Stride(isRGBW));
    if lastChangedPixel > 0 {
      out := protocol.SendDataToNode(lookup, node, nodeOffset, cur, lastChangedPixel, isRGBW, txn, id, delivered);
    }
  }

  lemma PixelsOfPrefix(cur: seq<byte>, stride: nat, n: nat, last: nat)
    requires |cur| == n * stride && last <= n
    ensures last * stride <= |cur|
    ensures Pixels(cur[..last * stride], stride, last) == Pixels(cur, stride, n)[..last]
  {
    PrefixLength(last, n, stride);
    forall p | 0 <= p < last
      ensures (p + 1) * stride <= last * stride && (p + 1) * stride <= |cur|
      ensures PixelAt(cur[..last * stride], stride, p) == PixelAt(cur, stride, p)
    {
      Inside(p, last, stride);
    }
  }

  /** From one buffer to the other: the datagram of a frame is accepted, and a node that overwrites the
      front of what it shows with the pixels it receives shows what NodeAfter says. */
  lemma DatagramRefreshesNode(frames: seq<Frame>, n: nat, cur: seq<byte>, isRGBW: bool, txn: Txn, nodeOffset: bv32)
    requires Run(frames, n) && |frames| > 1
    requires |cur| == n * PH.Stride(isRGBW) && Pixels(cur, PH.Stride(isRGBW), n) == frames[|frames| - 1]
    ensures var t, stride := |frames| - 1, PH.Stride(isRGBW);
            var last := DeltaSender.Sent(frames, n, t);
            && last * stride <= |cur|
            && var w := PH.FramebufferDatagram(txn, nodeOffset, cur[..last * stride], last, isRGBW);
            && PacketChecksum.Validity(w) == PacketChecksum.NoError
            && Packet.Holds(w, true, |w|)
            && var r := Packet.Converted(w, true, |w|);
            && |r| == 40 + last * stride
            && Pixels(r[40..], stride, last) + NodeAfter(frames[..t], n)[last..] == NodeAfter(frames, n)
  {
    var t, stride := |frames| - 1, PH.Stride(isRGBW);
    var last := DeltaSender.Sent(frames, n, t);
    PixelsOfPrefix(cur, stride, n, last);
    PH.PixelsArrive(txn, nodeOffset, cur[..last * stride], last, isRGBW);
  }
}
