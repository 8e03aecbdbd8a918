/**
  What the peer reads while goroutines share a connection: the order on the
  wire, as `WsWireOrder` proves it for every interleaving, put together with the
  reader.
 */
module WsSharedWire {
  import opened Bytes
  import opened Outcomes
  import opened WsFrames
  import opened WsMessages
  import WsReader
  import WsRoundTrip
  import opened WsWireOrder

  lemma PartialTailReads(s: System, p: seq<byte>)
    requires PartialTail(s, p) && Sequenced(s.log) && NothingAfterClose(s.log) && (CloseIn(s.log) ==> p == [])
    ensures WsReader.Everything(WsReader.Start(s.wire), s.masked).messages == Assembled(s.log).done
  {
    hide WsReader.Everything, EncodeAll, Assembled, Sequenced, SentOk, FrameBytes, WsRoundTrip.FrameHead, Fits;
    if p == [] {
      assert s.wire == EncodeAll(s.log, s.masked);
      WsRoundTrip.WireReadsBack(s.wire, s.log, s.masked);
    } else {
      var f: Sent, k: nat :| CutFrom(p, s.log, s.masked, f, k);
      WsRoundTrip.CutLooksComplete(s.log, f, k, s.masked);
    }
  }

  /**
    At every point of every interleaving, whatever writes have failed and
    whatever goroutine is in the middle of one, the peer reads exactly the
    messages whose frames are all on the wire.
   */
  lemma SharedWireReads(masked: bool, steps: seq<Step>)
    requires Run(masked, steps).Some?
    ensures var s := Run(masked, steps).value;
            WsReader.Everything(WsReader.Start(s.wire), masked).messages == Assembled(s.log).done
  {
    hide WsReader.Everything, Assembled, Sequenced, Inv, PartialTail, NothingAfterClose, CloseIn;
    EveryRunKeeps(masked, steps);
    WireOrder(masked, steps);
    var s := Run(masked, steps).value;
    hide Run;
    var p := TailOfWire(s);
    PartialTailReads(s, p);
  }
}
