/**
 * The transmitter and the receiver together: the frames `send_file` and
 * `send_manifest` put on the air, read back one frame per read by a receiver
 * using the documented decoder, come out as the file and the manifest that went in.
 */
module EndToEnd {
  import opened Wrappers
  import opened Struct
  import opened Codec
  import opened Sender
  import opened Receiver

  /** The receiver having counted one more read. */
  function Counted(s: State): State
  {
    s.(stats := s.stats.(received := s.stats.received + 1))
  }

  /** A frame made by `create_packet` is received as its packet: counted, parsed and handled by its kind. */
  lemma FrameReceived(s: State, p: Packet, frame: seq<byte>)
    requires Encode(p) == Success(frame)
    ensures var step := Dispatch(Counted(s), p);
            ReceivePacket(s, frame, AsDocumented) == Received(step.state, step.saved, true)
  {
    ParseCreateRoundTrip(p.kind, p.fileId, p.seqNo, p.total, p.data);
  }

  /** The first n chunks of a file, by sequence number. */
  function FirstChunks(data: seq<byte>, n: nat): (r: map<nat, seq<byte>>)
    requires n <= TotalPackets(|data|)
    ensures HoldsRange(r, Chunks(data), 0, n)
  {
    map i: nat | i < n :: Chunk(data, i)
  }

  /** Adding chunk n to the first n chunks gives the first n + 1. */
  lemma FirstChunksNext(data: seq<byte>, n: nat)
    requires n < TotalPackets(|data|)
    ensures FirstChunks(data, n)[n := Chunk(data, n)] == FirstChunks(data, n + 1)
  {
  }

  /** The receiver after the START frame and DATA 0 .. n - 1 of a file, starting from s. */
  function Partial(s: State, fileId: nat, name: seq<byte>, data: seq<byte>, n: nat): State
    requires n <= TotalPackets(|data|)
  {
    s.(files := s.files[fileId := Transfer(CutName(name), FirstChunks(data, n), TotalPackets(|data|), n)],
       stats := s.stats.(received := s.stats.received + 1 + n))
  }

  /** START opens the file's entry: the receiver is at the state before any DATA frame. */
  lemma StartHandled(s: State, fileId: nat, name: seq<byte>, data: seq<byte>)
    ensures Dispatch(Counted(s), Packet(PktFileStart, fileId, 0, TotalPackets(|data|), CutName(name)))
         == Step(Partial(s, fileId, name, data, 0), None)
  {
    assert FirstChunks(data, 0) == map[];
  }

  /** DATA n, in order, adds chunk n to the entry and counts it. */
  lemma DataHandled(s: State, fileId: nat, name: seq<byte>, data: seq<byte>, n: nat)
    requires n < TotalPackets(|data|)
    ensures Dispatch(Counted(Partial(s, fileId, name, data, n)),
                     Packet(PktFileData, fileId, n, TotalPackets(|data|), Chunk(data, n)))
         == Step(Partial(s, fileId, name, data, n + 1), None)
  {
    FirstChunksNext(data, n);
  }

  /** All of a content's chunks, assembled in sequence-number order, are the content. */
  lemma AssembleAllChunks(data: seq<byte>)
    ensures Assemble(FirstChunks(data, TotalPackets(|data|))) == data
  {
    var total := TotalPackets(|data|);
    AssembleRange(FirstChunks(data, total), Chunks(data), 0, total);
    ConcatChunks(data);
    assert Chunks(data)[0..total] == Chunks(data);
  }

  /** END, once every chunk is in, writes the file's bytes under its cut name and drops the entry. */
  lemma EndHandled(s: State, fileId: nat, name: seq<byte>, data: seq<byte>)
    ensures var total := TotalPackets(|data|);
            Dispatch(Counted(Partial(s, fileId, name, data, total)), Packet(PktFileEnd, fileId, total, total, []))
            == Step(s.(files := s.files - {fileId},
                       stats := s.stats.(received := s.stats.received + total + 2, completed := s.stats.completed + 1)),
                    Some(SavedFile(CutName(name), data)))
  {
    var total := TotalPackets(|data|);
    AssembleAllChunks(data);
    var mid := Counted(Partial(s, fileId, name, data, total));
    assert mid.files - {fileId} == s.files - {fileId};
  }

  /** Frame k of a file is the encoding of packet k of `send_file`. */
  lemma FileFrameAt(fileId: nat, name: seq<byte>, data: seq<byte>, k: nat)
    requires fileId < 256 && TotalPackets(|data|) < 0x10000 && k < TotalPackets(|data|) + 2
    ensures k < |FileFrames(fileId, name, data)|
    ensures Encode(FilePackets(fileId, name, data)[k]) == Success(FileFrames(fileId, name, data)[k])
  {
  }

  /** Frame n of a file, read after the frames before it, takes the receiver from the state before it to the one after. */
  lemma FileFrameStep(s: State, fileId: nat, name: seq<byte>, data: seq<byte>, n: nat)
    requires fileId < 256 && TotalPackets(|data|) < 0x10000 && 0 < n <= TotalPackets(|data|)
    ensures n < |FileFrames(fileId, name, data)|
    ensures Next(Outcome(Partial(s, fileId, name, data, n - 1), []), FileFrames(fileId, name, data)[n], AsDocumented)
         == Outcome(Partial(s, fileId, name, data, n), [])
  {
    FileFrameAt(fileId, name, data, n);
    FilePacketAt(fileId, name, data, n);
    var p := Packet(PktFileData, fileId, n - 1, TotalPackets(|data|), Chunk(data, n - 1));
    FrameReceived(Partial(s, fileId, name, data, n - 1), p, FileFrames(fileId, name, data)[n]);
    DataHandled(s, fileId, name, data, n - 1);
  }

  /** The START frame, read first, opens the file's entry. */
  lemma FileFrameFirst(s: State, fileId: nat, name: seq<byte>, data: seq<byte>)
    requires fileId < 256 && TotalPackets(|data|) < 0x10000
    ensures Run(s, FileFrames(fileId, name, data)[..1], AsDocumented) == Outcome(Partial(s, fileId, name, data, 0), [])
  {
    var frames := FileFrames(fileId, name, data);
    FileFrameAt(fileId, name, data, 0);
    FilePacketAt(fileId, name, data, 0);
    RunPrefix(s, frames, AsDocumented, 0);
    assert frames[..0] == [];
    FrameReceived(s, Packet(PktFileStart, fileId, 0, TotalPackets(|data|), CutName(name)), frames[0]);
    StartHandled(s, fileId, name, data);
  }

  /** The END frame, read after every DATA frame, writes the file. */
  lemma FileFrameLast(s: State, fileId: nat, name: seq<byte>, data: seq<byte>)
    requires fileId < 256 && TotalPackets(|data|) < 0x10000
    ensures var total := TotalPackets(|data|);
            Next(Outcome(Partial(s, fileId, name, data, total), []), FileFrames(fileId, name, data)[total + 1], AsDocumented)
            == Outcome(s.(files := s.files - {fileId},
                          stats := s.stats.(received := s.stats.received + total + 2,
                                            completed := s.stats.completed + 1)),
                       [SavedFile(CutName(name), data)])
  {
    var total := TotalPackets(|data|);
    FileFrameAt(fileId, name, data, total + 1);
    FilePacketAt(fileId, name, data, total + 1);
    FrameReceived(Partial(s, fileId, name, data, total), Packet(PktFileEnd, fileId, total, total, []),
                  FileFrames(fileId, name, data)[total + 1]);
    EndHandled(s, fileId, name, data);
  }

  /** The START frame and the first n DATA frames leave the file's entry holding the first n chunks, and write nothing. */
  lemma {:induction false} ReceiveFilePrefix(s: State, fileId: nat, name: seq<byte>, data: seq<byte>, n: nat)
    requires fileId < 256 && TotalPackets(|data|) < 0x10000 && n <= TotalPackets(|data|)
    ensures Run(s, FileFrames(fileId, name, data)[..n + 1], AsDocumented) == Outcome(Partial(s, fileId, name, data, n), [])
    decreases n
  {
    if n == 0 {
      FileFrameFirst(s, fileId, name, data);
    } else {
      ReceiveFilePrefix(s, fileId, name, data, n - 1);
      RunPrefix(s, FileFrames(fileId, name, data), AsDocumented, n);
      FileFrameStep(s, fileId, name, data, n);
    }
  }

  /**
   * A file's frames, received in order by the documented decoder, write the file
   * under its cut name with exactly its bytes; its entry is gone afterwards, one
   * more file is counted as completed, every frame as received and none as failed.
   */
  lemma ReceiveFile(s: State, fileId: nat, name: seq<byte>, data: seq<byte>)
    requires fileId < 256 && TotalPackets(|data|) < 0x10000
    ensures Run(s, FileFrames(fileId, name, data), AsDocumented)
         == Outcome(s.(files := s.files - {fileId},
                       stats := s.stats.(received := s.stats.received + TotalPackets(|data|) + 2,
                                         completed := s.stats.completed + 1)),
                    [SavedFile(CutName(name), data)])
  {
    ReceiveFilePrefix(s, fileId, name, data, TotalPackets(|data|));
    RunLast(s, FileFrames(fileId, name, data), AsDocumented);
    FileFrameLast(s, fileId, name, data);
  }

  /**
   * Over a clear link, `send_file` on a regular file with an id below 256 and
   * fewer than 65536 frames hands the receiver exactly the frames that make it
   * write that file, under the name cut to 240 bytes.
   */
  lemma DeliverFile(link: Link, clock: nat, s: State, fileId: nat, name: seq<byte>, data: seq<byte>)
    requires ClearFrom(link, clock) && fileId < 256 && TotalPackets(|data|) < 0x10000
    ensures var sent := SendFile(link, clock, Regular(data), name, fileId);
            && sent.outcome == Returned(true)
            && Run(s, sent.onAir, AsDocumented).saved == [SavedFile(CutName(name), data)]
  {
    SendFileClear(link, clock, data, name, fileId);
    ReceiveFile(s, fileId, name, data);
  }

  /** The receiver after MANIFEST 0 .. n - 1 of a manifest, starting with an empty buffer. */
  function PartialManifest(s: State, content: seq<byte>, n: nat): State
    requires n <= TotalPackets(|content|)
  {
    s.(manifest := FirstChunks(content, n),
       manifestTotal := if n == 0 then s.manifestTotal else TotalPackets(|content|),
       stats := s.stats.(received := s.stats.received + n))
  }

  /** The first n chunks are n entries. */
  lemma {:induction false} FirstChunksCount(data: seq<byte>, n: nat)
    requires n <= TotalPackets(|data|)
    ensures |FirstChunks(data, n)| == n
    decreases n
  {
    if n == 0 {
      assert FirstChunks(data, 0) == map[];
    } else {
      FirstChunksCount(data, n - 1);
      FirstChunksNext(data, n - 1);
      assert n - 1 !in FirstChunks(data, n - 1);
    }
  }

  /** MANIFEST n - 1, in order and not the last, adds chunk n - 1 to the buffer and writes nothing. */
  lemma ManifestHandled(s: State, content: seq<byte>, n: nat)
    requires 0 < n < TotalPackets(|content|)
    ensures Dispatch(Counted(PartialManifest(s, content, n - 1)),
                     Packet(PktManifest, ManifestId, n - 1, TotalPackets(|content|), Chunk(content, n - 1)))
         == Step(PartialManifest(s, content, n), None)
  {
    var total := TotalPackets(|content|);
    var t := Counted(PartialManifest(s, content, n - 1));
    var p := Packet(PktManifest, ManifestId, n - 1, total, Chunk(content, n - 1));
    assert Dispatch(t, p) == HandleManifest(t, n - 1, total, Chunk(content, n - 1));
    ManifestAdds(t, content, n);
    assert t.(manifest := FirstChunks(content, n), manifestTotal := total) == PartialManifest(s, content, n);
  }

  /** A buffer holding the first n - 1 chunks, given chunk n - 1 and n below the count, holds n chunks and is not full. */
  lemma ManifestAdds(t: State, content: seq<byte>, n: nat)
    requires 0 < n < TotalPackets(|content|) && t.manifest == FirstChunks(content, n - 1)
    ensures var total := TotalPackets(|content|);
            HandleManifest(t, n - 1, total, Chunk(content, n - 1))
            == Step(t.(manifest := FirstChunks(content, n), manifestTotal := total), None)
  {
    FirstChunksNext(content, n - 1);
    assert FirstChunks(content, n - 1)[n - 1 := Chunk(content, n - 1)] == FirstChunks(content, n);
    FirstChunksCount(content, n);
  }

  /** The last MANIFEST frame completes the buffer, and the manifest is written whole. */
  lemma LastManifestHandled(s: State, content: seq<byte>)
    requires |content| > 0
    ensures var total := TotalPackets(|content|);
            Dispatch(Counted(PartialManifest(s, content, total - 1)),
                     Packet(PktManifest, ManifestId, total - 1, total, Chunk(content, total - 1))).saved
            == Some(SavedManifest(content))
  {
    var total := TotalPackets(|content|);
    var t := Counted(PartialManifest(s, content, total - 1));
    ManifestCompletes(t, content);
  }

  /** A buffer holding every chunk but the last, given the last, is full and assembles to the content. */
  lemma ManifestCompletes(t: State, content: seq<byte>)
    requires |content| > 0 && t.manifest == FirstChunks(content, TotalPackets(|content|) - 1)
    ensures var total := TotalPackets(|content|);
            HandleManifest(t, total - 1, total, Chunk(content, total - 1)).saved == Some(SavedManifest(content))
  {
    var total := TotalPackets(|content|);
    var m := FirstChunks(content, total - 1)[total - 1 := Chunk(content, total - 1)];
    FirstChunksNext(content, total - 1);
    assert m == FirstChunks(content, total);
    FirstChunksCount(content, total);
    AssembleAllChunks(content);
    assert |m| == total && Assemble(m) == content;
  }

  /** A read whose result is known extends the run by that result. */
  lemma NextReceived(o: Receiver.Outcome, frame: seq<byte>, d: Decoder, r: Received)
    requires ReceivePacket(o.state, frame, d) == r
    ensures Next(o, frame, d) == Outcome(r.state, o.saved + Written(r.saved))
  {
  }

  /** The frame of MANIFEST chunk n - 1, not the last, is received as that chunk. */
  lemma ManifestFrameReceived(s: State, content: seq<byte>, n: nat, frame: seq<byte>)
    requires 0 < n < TotalPackets(|content|)
    requires Encode(Packet(PktManifest, ManifestId, n - 1, TotalPackets(|content|), Chunk(content, n - 1))) == Success(frame)
    ensures ReceivePacket(PartialManifest(s, content, n - 1), frame, AsDocumented)
         == Received(PartialManifest(s, content, n), None, true)
  {
    var p := Packet(PktManifest, ManifestId, n - 1, TotalPackets(|content|), Chunk(content, n - 1));
    FrameReceived(PartialManifest(s, content, n - 1), p, frame);
    ManifestHandled(s, content, n);
  }

  /** Manifest frame n - 1, not the last, read after the frames before it, adds its chunk and writes nothing. */
  lemma ManifestFrameStep(s: State, content: seq<byte>, n: nat)
    requires TotalPackets(|content|) < 0x10000 && 0 < n < TotalPackets(|content|)
    ensures n - 1 < |ManifestFrames(content)|
    ensures Next(Outcome(PartialManifest(s, content, n - 1), []), ManifestFrames(content)[n - 1], AsDocumented)
         == Outcome(PartialManifest(s, content, n), [])
  {
    ManifestFrameAt(content, n - 1);
    var frame := ManifestFrames(content)[n - 1];
    ManifestFrameReceived(s, content, n, frame);
    NextReceived(Outcome(PartialManifest(s, content, n - 1), []), frame, AsDocumented,
                 Received(PartialManifest(s, content, n), None, true));
  }

  /** The first n manifest frames, n below their count, fill the buffer with the first n chunks and write nothing. */
  lemma {:induction false} ReceiveManifestPrefix(s: State, content: seq<byte>, n: nat)
    requires s.manifest == map[] && TotalPackets(|content|) < 0x10000 && n < TotalPackets(|content|)
    ensures Run(s, ManifestFrames(content)[..n], AsDocumented) == Outcome(PartialManifest(s, content, n), [])
    decreases n
  {
    if n == 0 {
      assert ManifestFrames(content)[..0] == [];
      assert FirstChunks(content, 0) == map[];
    } else {
      ReceiveManifestPrefix(s, content, n - 1);
      ManifestFrameStep(s, content, n);
      RunExtend(s, ManifestFrames(content), AsDocumented, n, Outcome(PartialManifest(s, content, n - 1), []),
                Outcome(PartialManifest(s, content, n), []));
    }
  }

  /** Frame k of a manifest is MANIFEST k under id 255 with chunk k, encoded. */
  lemma ManifestFrameAt(content: seq<byte>, k: nat)
    requires TotalPackets(|content|) < 0x10000 && k < TotalPackets(|content|)
    ensures ManifestPackets(content)[k] == Packet(PktManifest, ManifestId, k, TotalPackets(|content|), Chunk(content, k))
    ensures k < |ManifestFrames(content)| && Encode(ManifestPackets(content)[k]) == Success(ManifestFrames(content)[k])
  {
    ManifestPacketsEncodable(content);
  }

  /** The frame of the last MANIFEST chunk, read after the others, writes the manifest whole. */
  lemma LastManifestReceived(s: State, content: seq<byte>, frame: seq<byte>)
    requires |content| > 0
    requires var total := TotalPackets(|content|);
             Encode(Packet(PktManifest, ManifestId, total - 1, total, Chunk(content, total - 1))) == Success(frame)
    ensures ReceivePacket(PartialManifest(s, content, TotalPackets(|content|) - 1), frame, AsDocumented).saved
         == Some(SavedManifest(content))
  {
    var total := TotalPackets(|content|);
    var p := Packet(PktManifest, ManifestId, total - 1, total, Chunk(content, total - 1));
    FrameReceived(PartialManifest(s, content, total - 1), p, frame);
    LastManifestHandled(s, content);
  }

  /** Reads that leave all but the last chunk in the buffer, then the last chunk's frame, write the manifest. */
  lemma ManifestRunEnds(s: State, content: seq<byte>, input: seq<seq<byte>>)
    requires |content| > 0 && |input| > 0
    requires Run(s, input[..|input| - 1], AsDocumented) == Outcome(PartialManifest(s, content, TotalPackets(|content|) - 1), [])
    requires var total := TotalPackets(|content|);
             Encode(Packet(PktManifest, ManifestId, total - 1, total, Chunk(content, total - 1))) == Success(input[|input| - 1])
    ensures Run(s, input, AsDocumented).saved == [SavedManifest(content)]
  {
    var prev := PartialManifest(s, content, TotalPackets(|content|) - 1);
    var frame := input[|input| - 1];
    LastManifestReceived(s, content, frame);
    RunLastKnown(s, input, AsDocumented, Outcome(prev, []), ReceivePacket(prev, frame, AsDocumented));
  }

  /**
   * A non-empty manifest's frames, received in order into an empty manifest
   * buffer, write `manifest.md5` exactly once, after the last frame, with the
   * manifest's bytes.
   */
  lemma ReceiveManifest(s: State, content: seq<byte>)
    requires s.manifest == map[] && |content| > 0 && TotalPackets(|content|) < 0x10000
    ensures Run(s, ManifestFrames(content), AsDocumented).saved == [SavedManifest(content)]
  {
    var total := TotalPackets(|content|);
    ReceiveManifestPrefix(s, content, total - 1);
    ManifestFrameAt(content, total - 1);
    ManifestRunEnds(s, content, ManifestFrames(content));
  }

  /**
   * Over a clear link, `send_manifest` on a non-empty manifest of fewer than
   * 65536 frames hands a receiver with an empty manifest buffer exactly the
   * frames that make it write the manifest.
   */
  lemma DeliverManifest(link: Link, clock: nat, s: State, content: seq<byte>)
    requires ClearFrom(link, clock) && s.manifest == map[] && |content| > 0 && TotalPackets(|content|) < 0x10000
    ensures var sent := SendManifest(link, clock, Regular(content));
            && sent.outcome == Returned(true)
            && Run(s, sent.onAir, AsDocumented).saved == [SavedManifest(content)]
  {
    SendManifestClear(link, clock, content);
    ReceiveManifest(s, content);
  }
}
