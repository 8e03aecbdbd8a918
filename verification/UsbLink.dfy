/**
  The USB HID link (uavtalk/links.go): outgoing bytes are cut into 64-byte
  reports of report ID, payload length and up to 62 payload bytes, built in one
  reused buffer; incoming reports are stripped of their two header bytes.

  The device is modelled as accepting whole reports until it fails.
 */
module UsbLink {
  import opened Bytes
  import opened Outcomes

  const MAX_HID_FRAME_SIZE := 64
  const MAX_HID_PAYLOAD := 62
  const REPORT_ID: byte := 2

  function Min(a: nat, b: nat): nat {
    if a <= b then a else b
  }

  /** The write buffer after the next fragment of `b` is put in: bytes behind the fragment are stale. */
  function NextReport(buffer: seq<byte>, b: seq<byte>): (r: seq<byte>)
    requires |buffer| == MAX_HID_FRAME_SIZE
    ensures |r| == MAX_HID_FRAME_SIZE
  {
    var n := Min(|b|, MAX_HID_PAYLOAD);
    [REPORT_ID, n] + b[..n] + buffer[2 + n..]
  }

  /** The reports that carry `b`, given what the write buffer held before. */
  function Reports(buffer: seq<byte>, b: seq<byte>): (rs: seq<seq<byte>>)
    requires |buffer| == MAX_HID_FRAME_SIZE
    ensures forall i :: 0 <= i < |rs| ==> |rs[i]| == MAX_HID_FRAME_SIZE
    decreases |b|
  {
    if |b| == 0 then []
    else
      var r := NextReport(buffer, b);
      [r] + Reports(r, b[Min(|b|, MAX_HID_PAYLOAD)..])
  }

  /** What a read hands on: the shifted report, cut to the length byte. */
  function Chunk(report: seq<byte>): Outcome<seq<byte>>
    requires |report| == MAX_HID_FRAME_SIZE
  {
    if report[1] <= MAX_HID_FRAME_SIZE then Ok((report[2..] + report[62..])[..report[1]]) else Panic
  }

  class Device {
    var reports: seq<seq<byte>>
    var writesLeft: nat

    constructor (writesLeft: nat)
      ensures reports == [] && this.writesLeft == writesLeft
    {
      reports := [];
      this.writesLeft := writesLeft;
    }

    method Write(report: seq<byte>) returns (n: nat, failed: bool)
      requires |report| == MAX_HID_FRAME_SIZE
      modifies this
      ensures failed <==> old(writesLeft) == 0
      ensures if failed then reports == old(reports) && writesLeft == 0
              else n == MAX_HID_FRAME_SIZE && reports == old(reports) + [report] && writesLeft == old(writesLeft) - 1
    {
      if writesLeft == 0 {
        return 0, true;
      }
      writesLeft := writesLeft - 1;
      reports := reports + [report];
      return MAX_HID_FRAME_SIZE, false;
    }
  }

  /** The buffer after all of `b` was written. */
  function BufferAfterWrite(buffer: seq<byte>, b: seq<byte>): (r: seq<byte>)
    requires |buffer| == MAX_HID_FRAME_SIZE
    ensures |r| == MAX_HID_FRAME_SIZE
    decreases |b|
  {
    if |b| == 0 then buffer else BufferAfterWrite(NextReport(buffer, b), b[Min(|b|, MAX_HID_PAYLOAD)..])
  }

  class Link {
    const cc: Device
    const fixedLengthWriteBuffer: array<byte>

    ghost predicate Valid() {
      fixedLengthWriteBuffer.Length == MAX_HID_FRAME_SIZE
    }

    constructor (device: Device)
      ensures Valid() && cc == device && fresh(fixedLengthWriteBuffer)
    {
      cc := device;
      fixedLengthWriteBuffer := new byte[MAX_HID_FRAME_SIZE](_ => 0);
    }

    /** Puts the report ID, the length and the next fragment into the write buffer. */
    method Fill(b: seq<byte>)
      requires Valid() && 0 < |b|
      modifies fixedLengthWriteBuffer
      ensures fixedLengthWriteBuffer[..] == NextReport(old(fixedLengthWriteBuffer[..]), b)
    {
      var toWriteLength := |b|;
      if toWriteLength > MAX_HID_PAYLOAD {
        toWriteLength := MAX_HID_PAYLOAD;
      }
      ghost var was := fixedLengthWriteBuffer[..];
      fixedLengthWriteBuffer[0] := REPORT_ID;
      fixedLengthWriteBuffer[1] := toWriteLength;
      forall i | 0 <= i < toWriteLength {
        fixedLengthWriteBuffer[2 + i] := b[i];
      }
      assert fixedLengthWriteBuffer[..] == NextReport(was, b);
    }

    /**
      Writes `b` report by report.  On success the returned count is a whole
      number of fragments, which is at least the number of bytes; on a device
      failure, exactly the reports accepted before it have been sent.
     */
    method Write(b: seq<byte>) returns (count: nat, failed: bool)
      requires Valid()
      modifies cc, fixedLengthWriteBuffer
      ensures Valid()
      ensures var rs := Reports(old(fixedLengthWriteBuffer[..]), b);
              && (failed <==> old(cc.writesLeft) < |rs|)
              && (if failed
                  then cc.reports == old(cc.reports) + rs[..old(cc.writesLeft)]
                       && count == MAX_HID_PAYLOAD * old(cc.writesLeft) && cc.writesLeft == 0
                  else cc.reports == old(cc.reports) + rs
                       && count == MAX_HID_PAYLOAD * |rs| && cc.writesLeft == old(cc.writesLeft) - |rs|
                       && fixedLengthWriteBuffer[..] == BufferAfterWrite(old(fixedLengthWriteBuffer[..]), b))
    {
      hide NextReport;
      ghost var start := fixedLengthWriteBuffer[..];
      ghost var rs := Reports(start, b);
      ghost var sent: nat := 0;
      var currentOffset := 0;
      while currentOffset < |b|
        invariant Valid()
        invariant 0 <= currentOffset == MAX_HID_PAYLOAD * sent
        invariant sent <= |rs| && sent <= old(cc.writesLeft)
        invariant cc.reports == old(cc.reports) + rs[..sent]
        invariant cc.writesLeft == old(cc.writesLeft) - sent
        invariant rs[sent..] == Reports(fixedLengthWriteBuffer[..], b[Min(currentOffset, |b|)..])
        invariant BufferAfterWrite(start, b)
               == BufferAfterWrite(fixedLengthWriteBuffer[..], b[Min(currentOffset, |b|)..])
      {
        ghost var now := fixedLengthWriteBuffer[..];
        var rest := b[currentOffset..];
        Fill(rest);
        assert rs[sent..][0] == NextReport(now, rest) == fixedLengthWriteBuffer[..];
        var n, err := cc.Write(fixedLengthWriteBuffer[..]);
        if err {
          return currentOffset, true;
        }
        assert rest[Min(|rest|, MAX_HID_PAYLOAD)..] == b[Min(currentOffset + MAX_HID_PAYLOAD, |b|)..];
        assert rs[sent + 1..] == rs[sent..][1..];
        assert rs[..sent + 1] == rs[..sent] + [rs[sent]];
        if n > 2 {
          currentOffset := currentOffset + (n - 2);
        }
        sent := sent + 1;
      }
      assert rs[sent..] == [];
      assert rs[..sent] == rs;
      return currentOffset, false;
    }
  }

  /** Reads one report into the caller's buffer and shifts its header out. */
  method Read(report: seq<byte>, b: array<byte>) returns (n: nat)
    requires |report| == MAX_HID_FRAME_SIZE == b.Length
    modifies b
    ensures n == report[1] && b[..] == report[2..] + report[62..]
  {
    for i := 0 to b.Length
      invariant forall k :: 0 <= k < i ==> b[k] == report[k]
    {
      b[i] := report[i];
    }
    n := b[1];
    for i := 0 to b.Length - 2
      invariant forall k :: 0 <= k < i ==> b[k] == report[k + 2]
      invariant forall k :: i <= k < b.Length ==> b[k] == report[k]
    {
      b[i] := b[i + 2];
    }
  }

  // --------------------------------------------------------------- round trip

  /**
    One report for every 62 bytes begun.  The count that a successful write
    returns is therefore the number of bytes exactly when 62 divides it.
   */
  lemma {:induction false} ReportCount(buffer: seq<byte>, b: seq<byte>)
    requires |buffer| == MAX_HID_FRAME_SIZE
    ensures |Reports(buffer, b)| == (|b| + MAX_HID_PAYLOAD - 1) / MAX_HID_PAYLOAD
    ensures MAX_HID_PAYLOAD * |Reports(buffer, b)| == |b| <==> |b| % MAX_HID_PAYLOAD == 0
    decreases |b|
  {
    hide NextReport;
    if |b| > 0 {
      ReportCount(NextReport(buffer, b), b[Min(|b|, MAX_HID_PAYLOAD)..]);
    }
  }

  /** The payload bytes of the reports, put together. */
  function Payloads(reports: seq<seq<byte>>): seq<byte>
    requires forall i :: 0 <= i < |reports| ==> |reports[i]| == MAX_HID_FRAME_SIZE && Chunk(reports[i]).Ok?
  {
    if |reports| == 0 then [] else Chunk(reports[0]).value + Payloads(reports[1..])
  }

  lemma FragmentRoundTrip(buffer: seq<byte>, b: seq<byte>)
    requires |buffer| == MAX_HID_FRAME_SIZE
    ensures Chunk(NextReport(buffer, b)) == Ok(b[..Min(|b|, MAX_HID_PAYLOAD)])
  {
    var n := Min(|b|, MAX_HID_PAYLOAD);
    var r := NextReport(buffer, b);
    assert r[1] == n;
    assert (r[2..] + r[62..])[..n] == b[..n];
  }

  /** Reading back the reports of a write gives the bytes written, whatever was left in the buffer. */
  lemma {:induction false} ReportsRoundTrip(buffer: seq<byte>, b: seq<byte>)
    requires |buffer| == MAX_HID_FRAME_SIZE
    ensures forall i :: 0 <= i < |Reports(buffer, b)| ==> Chunk(Reports(buffer, b)[i]).Ok?
    ensures Payloads(Reports(buffer, b)) == b
    decreases |b|
  {
    hide NextReport, Chunk;
    if |b| > 0 {
      var n := Min(|b|, MAX_HID_PAYLOAD);
      var r := NextReport(buffer, b);
      FragmentRoundTrip(buffer, b);
      ReportsRoundTrip(r, b[n..]);
      assert Reports(buffer, b)[1..] == Reports(r, b[n..]);
      assert b == b[..n] + b[n..];
    }
  }

  lemma FirstReport(buffer: seq<byte>, b: seq<byte>)
    requires |buffer| == MAX_HID_FRAME_SIZE && |b| > 0
    ensures var r := NextReport(buffer, b);
            && r[0] == 2 && r[1] == (if |b| < 62 then |b| else 62)
            && r[2..2 + r[1]] == b[..r[1]]
  {
  }

  lemma SliceBehind(b: seq<byte>, start: nat, from: nat, n: nat)
    requires start + from + n <= |b|
    ensures b[start..][from..from + n] == b[start + from..start + from + n]
  {
    var (x, y) := (b[start..][from..from + n], b[start + from..start + from + n]);
    assert |x| == |y| && forall i :: 0 <= i < n ==> x[i] == y[i];
  }

  /** Every report in numbers: 64 bytes, the first is 2, the second counts the fragment of at most 62 that follows. */
  lemma {:induction false} ReportBytes(buffer: seq<byte>, b: seq<byte>, k: nat)
    requires |buffer| == MAX_HID_FRAME_SIZE && k < |Reports(buffer, b)|
    ensures var r := Reports(buffer, b)[k];
            && |r| == 64 && r[0] == 2 && 62 * k < |b|
            && r[1] == (if |b| < 62 * k + 62 then |b| - 62 * k else 62)
            && r[2..2 + r[1]] == b[62 * k..62 * k + r[1]]
    decreases k
  {
    hide NextReport;
    var (first, rest) := (NextReport(buffer, b), b[Min(|b|, MAX_HID_PAYLOAD)..]);
    assert Reports(buffer, b) == [first] + Reports(first, rest);
    hide Reports;
    if k == 0 {
      FirstReport(buffer, b);
    } else {
      ReportBytes(first, rest, k - 1);
      var n := Reports(buffer, b)[k][1];
      SliceBehind(b, 62, 62 * (k - 1), n);
    }
  }
}
