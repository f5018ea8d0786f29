/**
 * The frames of one segmented write, and of a whole list of writes
 * (crates/powerlink-rs/src/sdo/client_connection.rs:526-570).
 */
module WriteFrames {
  import opened Wrappers
  import opened Bytes
  import opened Entries
  import opened SdoCommands
  import opened ConciseDcf
  import opened ClientSteps

  /** The frames that carry a payload from an offset on. */
  function FramesFrom(p: seq<u8>, offset: nat, tid: u8): seq<SdoCommand>
    requires 4 <= |p| && offset <= |p|
    decreases |p| - offset
  {
    if offset == |p| then []
    else [WriteCommand(p, offset, tid)] + FramesFrom(p, offset + ChunkLength(|p|, offset), tid)
  }

  function FramesOf(p: seq<u8>, tid: u8): seq<SdoCommand>
    requires 4 <= |p|
  {
    FramesFrom(p, 0, tid)
  }

  /** The frames of the entries of a job, each entry under the next transaction id. */
  function JobFrames(es: seq<Entry>, tid: u8): seq<SdoCommand> {
    if es == [] then []
    else FramesOf(WritePayload(es[0]), NextTid(tid)) + JobFrames(es[1..], NextTid(tid))
  }

  function Payloads(fs: seq<SdoCommand>): seq<u8> {
    if fs == [] then [] else fs[0].payload + Payloads(fs[1..])
  }

  function WritePayloads(es: seq<Entry>): seq<u8> {
    if es == [] then [] else WritePayload(es[0]) + WritePayloads(es[1..])
  }

  lemma {:induction false} PayloadsConcat(a: seq<SdoCommand>, b: seq<SdoCommand>)
    ensures Payloads(a + b) == Payloads(a) + Payloads(b)
  {
    if a == [] {
      assert a + b == b;
      assert [] + Payloads(b) == Payloads(b);
    } else {
      PayloadsConcat(a[1..], b);
      assert (a + b)[1..] == a[1..] + b;
      var head, mid, tail := a[0].payload, Payloads(a[1..]), Payloads(b);
      assert head + (mid + tail) == (head + mid) + tail;
    }
  }

  /** The frames of a write put together are the payload, byte for byte. */
  lemma {:induction false} FramesCarryPayload(p: seq<u8>, offset: nat, tid: u8)
    requires 4 <= |p| && offset <= |p|
    ensures Payloads(FramesFrom(p, offset, tid)) == p[offset..]
    decreases |p| - offset
  {
    if offset < |p| {
      var next := offset + ChunkLength(|p|, offset);
      FramesCarryPayload(p, next, tid);
      var fs := FramesFrom(p, offset, tid);
      assert fs[1..] == FramesFrom(p, next, tid);
      assert p[offset..] == p[offset..next] + p[next..];
    }
  }

  /** The frames of a job put together are the write payloads of its entries. */
  lemma {:induction false} JobFramesCarryPayloads(es: seq<Entry>, tid: u8)
    ensures Payloads(JobFrames(es, tid)) == WritePayloads(es)
  {
    if es != [] {
      JobFramesCarryPayloads(es[1..], NextTid(tid));
      FramesCarryPayload(WritePayload(es[0]), 0, NextTid(tid));
      PayloadsConcat(FramesOf(WritePayload(es[0]), NextTid(tid)), JobFrames(es[1..], NextTid(tid)));
    }
  }

  // ---- Closed form: number, cut and labels of the frames ----

  function FrameCount(size: nat): nat { (size + MAX_CLIENT_PAYLOAD - 1) / MAX_CLIENT_PAYLOAD }

  /** The j-th frame of a write, written down without recursion. */
  function NthFrame(p: seq<u8>, j: nat, tid: u8): SdoCommand
    requires 4 <= |p| && j < FrameCount(|p|)
  {
    var begin, end := MAX_CLIENT_PAYLOAD * j, Min(MAX_CLIENT_PAYLOAD * (j + 1), |p|);
    var kind :=
      if j > 0 then (if j == FrameCount(|p|) - 1 then Complete else Segment)
      else if |p| <= 1456 then Expedited else Initiate;
    SdoCommand(
      CommandHeader(tid, false, false, kind, WriteByIndex, end - begin),
      if j == 0 then Some((|p| - 4) % 0x1_0000_0000) else None,
      p[begin..end])
  }

  lemma {:induction false} FramesFromAreNth(p: seq<u8>, m: nat, tid: u8)
    requires 4 <= |p| && m <= FrameCount(|p|)
    ensures var fs := FramesFrom(p, Min(MAX_CLIENT_PAYLOAD * m, |p|), tid);
            && |fs| == FrameCount(|p|) - m
            && forall k :: 0 <= k < |fs| ==> fs[k] == NthFrame(p, m + k, tid)
    decreases FrameCount(|p|) - m
  {
    if m < FrameCount(|p|) {
      var offset := MAX_CLIENT_PAYLOAD * m;
      assert offset < |p|;
      FramesFromAreNth(p, m + 1, tid);
      assert offset + ChunkLength(|p|, offset) == Min(MAX_CLIENT_PAYLOAD * (m + 1), |p|);
      assert WriteCommand(p, offset, tid) == NthFrame(p, m, tid);
      var fs, rest := FramesFrom(p, offset, tid), FramesFrom(p, Min(MAX_CLIENT_PAYLOAD * (m + 1), |p|), tid);
      assert fs == [NthFrame(p, m, tid)] + rest;
      forall k | 0 <= k < |fs| ensures fs[k] == NthFrame(p, m + k, tid) {
        if k > 0 { assert fs[k] == rest[k - 1]; }
      }
    }
  }

  /** A write of n bytes is ceil(n / 1452) frames; each is cut, sized and labelled as stated. */
  lemma FramesClosedForm(p: seq<u8>, tid: u8)
    requires 4 <= |p|
    ensures |FramesOf(p, tid)| == FrameCount(|p|) >= 1
    ensures forall j :: 0 <= j < FrameCount(|p|) ==> FramesOf(p, tid)[j] == NthFrame(p, j, tid)
  {
    FramesFromAreNth(p, 0, tid);
  }

  /** The labels that the command layer prescribes: Expedited alone, or Initiate, Segments and Complete. */
  predicate WellLabelled(fs: seq<SdoCommand>) {
    if |fs| == 1 then fs[0].header.segmentation == Expedited
    else
      && |fs| >= 2
      && fs[0].header.segmentation == Initiate
      && fs[|fs| - 1].header.segmentation == Complete
      && forall j :: 0 < j < |fs| - 1 ==> fs[j].header.segmentation == Segment
  }

  /** An Expedited frame of 1452 bytes and a second one with the last few. */
  predicate CutExpedited(fs: seq<SdoCommand>, size: nat) {
    && |fs| == 2
    && fs[0].header.segmentation == Expedited && |fs[0].payload| == MAX_CLIENT_PAYLOAD
    && fs[1].header.segmentation == Complete && |fs[1].payload| == size - MAX_CLIENT_PAYLOAD
  }

  /** The labels are right exactly for sizes outside 1453..1456; those start Expedited yet need two frames. */
  lemma LabelsExact(p: seq<u8>, tid: u8)
    requires 4 <= |p|
    ensures WellLabelled(FramesOf(p, tid)) <==> !(1453 <= |p| <= 1456)
    ensures CutExpedited(FramesOf(p, tid), |p|) <==> 1453 <= |p| <= 1456
  {
    FramesClosedForm(p, tid);
    var fs := FramesOf(p, tid);
    assert fs[0] == NthFrame(p, 0, tid);
    assert fs[|fs| - 1] == NthFrame(p, |fs| - 1, tid);
    if |p| <= 1452 {
      assert FrameCount(|p|) == 1;
    } else {
      assert FrameCount(|p|) >= 2;
      if |p| <= 1456 { assert FrameCount(|p|) == 2; }
    }
  }

  lemma {:induction false} JobFramesTids(es: seq<Entry>, tid: u8)
    ensures forall k :: 0 <= k < |JobFrames(es, tid)| ==> JobFrames(es, tid)[k].header.transactionId != 0
    ensures forall k :: 0 <= k < |JobFrames(es, tid)| ==> JobFrames(es, tid)[k].header.commandId.WriteByIndex?
  {
    if es != [] {
      JobFramesTids(es[1..], NextTid(tid));
      FramesClosedForm(WritePayload(es[0]), NextTid(tid));
    }
  }

  // ---- Reading the frames, from the command layer's format alone ----

  /** How many frames in front carry on a write: only the first frame of a write announces a size. */
  function CarriedOn(fs: seq<SdoCommand>): (n: nat)
    ensures n <= |fs|
  {
    if fs == [] || fs[0].dataSize.Some? then 0 else 1 + CarriedOn(fs[1..])
  }

  /** The entry that the frames of one write carry: the announced size is that of its data. */
  function ReadWrite(fs: seq<SdoCommand>): Option<Entry>
    requires fs != []
  {
    var e := ReadPayload(Payloads(fs));
    if e.Some? && fs[0].dataSize == Some(|e.value.data| % 0x1_0000_0000) then e else None
  }

  /** The entries that a list of write frames carries. */
  function ReadWrites(fs: seq<SdoCommand>): Option<seq<Entry>>
    decreases |fs|
  {
    if fs == [] then Some([])
    else
      var n := 1 + CarriedOn(fs[1..]);
      match (ReadWrite(fs[..n]), ReadWrites(fs[n..]))
      case (Some(e), Some(es)) => Some([e] + es)
      case _ => None
  }

  lemma {:induction false} CarriedOnAll(fs: seq<SdoCommand>, more: seq<SdoCommand>)
    requires forall k :: 0 <= k < |fs| ==> fs[k].dataSize.None?
    requires more == [] || more[0].dataSize.Some?
    ensures CarriedOn(fs + more) == |fs|
  {
    if fs == [] {
      assert fs + more == more;
    } else {
      assert (fs + more)[1..] == fs[1..] + more;
      CarriedOnAll(fs[1..], more);
    }
  }

  /** Only the first frame of a write announces its size. */
  lemma {:induction false} SizesAnnounced(p: seq<u8>, tid: u8)
    requires 4 <= |p|
    ensures var fs := FramesOf(p, tid);
            && fs != [] && fs[0].dataSize == Some((|p| - 4) % 0x1_0000_0000)
            && forall k :: 1 <= k < |fs| ==> fs[k].dataSize.None?
  {
    FramesClosedForm(p, tid);
    var fs := FramesOf(p, tid);
    forall k | 0 <= k < |fs| ensures fs[k] == NthFrame(p, k, tid) {}
  }

  lemma {:induction false} WriteReads(e: Entry, tid: u8)
    ensures FramesOf(WritePayload(e), tid) != []
    ensures ReadWrite(FramesOf(WritePayload(e), tid)) == Some(e)
  {
    var p := WritePayload(e);
    SizesAnnounced(p, tid);
    FramesCarryPayload(p, 0, tid);
    assert p[0..] == p;
    PayloadReads(e);
  }

  /** One write in front of frames that begin with another. */
  lemma {:induction false} WriteInFront(fs: seq<SdoCommand>, more: seq<SdoCommand>)
    requires fs != [] && (forall k :: 1 <= k < |fs| ==> fs[k].dataSize.None?)
    requires more == [] || more[0].dataSize.Some?
    ensures var all := fs + more;
            && all != [] && 1 + CarriedOn(all[1..]) == |fs| && all[..|fs|] == fs && all[|fs|..] == more
  {
    assert (fs + more)[1..] == fs[1..] + more;
    CarriedOnAll(fs[1..], more);
  }

  /** The frames of a job begin with the first frame of a write. */
  lemma {:induction false} JobBegins(es: seq<Entry>, tid: u8)
    ensures JobFrames(es, tid) == [] || JobFrames(es, tid)[0].dataSize.Some?
  {
    if es != [] { SizesAnnounced(WritePayload(es[0]), NextTid(tid)); }
  }

  /** The frames of a job read back as its entries, each with its index, sub-index and data. */
  lemma {:induction false} JobReads(es: seq<Entry>, tid: u8)
    ensures ReadWrites(JobFrames(es, tid)) == Some(es)
  {
    if es != [] {
      var fs, more := FramesOf(WritePayload(es[0]), NextTid(tid)), JobFrames(es[1..], NextTid(tid));
      SizesAnnounced(WritePayload(es[0]), NextTid(tid));
      JobBegins(es[1..], NextTid(tid));
      WriteInFront(fs, more);
      WriteReads(es[0], NextTid(tid));
      JobReads(es[1..], NextTid(tid));
      assert [es[0]] + es[1..] == es;
    }
  }

  // ---- Transaction ids ----

  /** The id that follows k others. */
  function TidAfter(tid: u8, k: nat): u8 {
    if k == 0 then tid else NextTid(TidAfter(tid, k - 1))
  }

  /** The ids run through 1 to 255 in turn, and never through 0. */
  lemma {:induction false} TidsInTurn(tid: u8, k: nat)
    requires tid != 0 || k > 0
    ensures TidAfter(tid, k) != 0
    ensures TidAfter(tid, k) % 255 == (tid + k) % 255
  {
    if k > 0 && (tid != 0 || k > 1) {
      TidsInTurn(tid, k - 1);
      OneMoreTid(TidAfter(tid, k - 1), tid + (k - 1));
    }
  }

  lemma OneMoreTid(tid: u8, n: nat)
    requires tid != 0 && tid % 255 == n % 255
    ensures NextTid(tid) % 255 == (n + 1) % 255
  {}
}
