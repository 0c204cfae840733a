/**
 * The receiver of `transmit/lora_receive.py`: the table of files being
 * reassembled, the manifest buffer and the three counters, driven one serial
 * read at a time. Each read is taken to hold exactly one frame; what a handler
 * writes to disk is returned as a `Saved` record instead. File names stay the
 * bytes the START frame carried.
 */
module Receiver {
  import opened Wrappers
  import opened Struct
  import opened Codec
  import opened Sender

  /** One entry of `self.files`: the name, the payloads by sequence number, the announced and the counted frames. */
  datatype Transfer = Transfer(name: seq<byte>, packets: map<nat, seq<byte>>, total: nat, received: nat)

  /** `self.stats`: reads taken, reads that did not parse, files saved. */
  datatype Stats = Stats(received: nat, failed: nat, completed: nat)

  /** The receiver's state: files by id, the manifest's payloads by sequence number, its announced total, the counters. */
  datatype State = State(files: map<nat, Transfer>, manifest: map<nat, seq<byte>>, manifestTotal: nat, stats: Stats)

  /** What a handler writes: a file under its received name, or `manifest.md5`. */
  datatype Saved = SavedFile(name: seq<byte>, content: seq<byte>) | SavedManifest(content: seq<byte>)

  /** The state after a handler, and what it wrote. */
  datatype Step = Step(state: State, saved: Option<Saved>)

  /** A freshly constructed receiver. */
  const Initial: State := State(map[], map[], 0, Stats(0, 0, 0))

  /** Every read counted as failed or as having completed a file was a read: `packets_failed + files_completed <= packets_received`. */
  predicate StatsBounded(s: Stats)
  {
    s.failed + s.completed <= s.received
  }

  /** A set of sequence numbers holding x has a least one. */
  lemma {:induction false} LeastExists(keys: set<nat>, x: nat)
    requires x in keys
    ensures exists k :: k in keys && forall j :: j in keys ==> k <= j
    decreases x
  {
    if exists y :: y in keys && y < x {
      var y :| y in keys && y < x;
      LeastExists(keys, y);
    } else {
      assert forall j :: j in keys ==> x <= j;
    }
  }

  /** The least of a non-empty set of sequence numbers. */
  function Least(keys: set<nat>): (r: nat)
    requires keys != {}
    ensures r in keys && forall j :: j in keys ==> r <= j
  {
    var x :| x in keys;
    LeastExists(keys, x);
    var k :| k in keys && forall j :: j in keys ==> k <= j;
    k
  }

  /** `for packet_num in sorted(packets.keys()): data += packets[packet_num]`: the payloads in ascending sequence order. */
  function Assemble(parts: map<nat, seq<byte>>): seq<byte>
    decreases parts.Keys
  {
    if parts.Keys == {} then []
    else
      var k := Least(parts.Keys);
      parts[k] + Assemble(parts - {k})
  }

  /** The map holds sequence numbers lo .. hi - 1 and no other, with the payloads of parts[lo .. hi]. */
  ghost predicate HoldsRange(m: map<nat, seq<byte>>, parts: seq<seq<byte>>, lo: nat, hi: nat)
  {
    && lo <= hi <= |parts|
    && (forall k :: k in m <==> lo <= k < hi)
    && (forall k :: lo <= k < hi ==> m[k] == parts[k])
  }

  /** A map holding exactly sequence numbers lo .. hi - 1 assembles to those parts concatenated in order. */
  lemma {:induction false} AssembleRange(m: map<nat, seq<byte>>, parts: seq<seq<byte>>, lo: nat, hi: nat)
    requires HoldsRange(m, parts, lo, hi)
    ensures Assemble(m) == Concat(parts[lo..hi])
    decreases hi - lo
  {
    if lo == hi {
      assert m.Keys == {} by {
        forall k | k in m.Keys ensures false { }
      }
      assert parts[lo..hi] == [];
    } else {
      assert lo in m.Keys;
      var k := Least(m.Keys);
      assert k == lo;
      var rest := m - {lo};
      assert HoldsRange(rest, parts, lo + 1, hi);
      AssembleRange(rest, parts, lo + 1, hi);
      assert parts[lo..hi] == [parts[lo]] + parts[lo + 1..hi];
    }
  }

  /**
   * `handle_file_start`: the entry for the id is replaced outright by the name,
   * the announced total, no payloads and a zero count; nothing else changes.
   */
  function HandleStart(s: State, fileId: nat, total: nat, name: seq<byte>): (r: State)
    ensures fileId in r.files && r.files[fileId] == Transfer(name, map[], total, 0)
    ensures r.files - {fileId} == s.files - {fileId}
    ensures r.manifest == s.manifest && r.manifestTotal == s.manifestTotal && r.stats == s.stats
  {
    s.(files := s.files[fileId := Transfer(name, map[], total, 0)])
  }

  /**
   * `handle_file_data`: for a known id the payload is stored under its sequence
   * number, overwriting a repeat, and the count goes up by one whether or not the
   * number was new or within the total; the frame's own total is not looked at.
   * For an unknown id nothing changes.
   */
  function HandleData(s: State, fileId: nat, seqNo: nat, data: seq<byte>): (r: State)
    ensures fileId !in s.files ==> r == s
    ensures fileId in s.files ==>
      var t := s.files[fileId];
      && fileId in r.files
      && r.files[fileId].name == t.name && r.files[fileId].total == t.total
      && r.files[fileId].received == t.received + 1
      && seqNo in r.files[fileId].packets && r.files[fileId].packets[seqNo] == data
      && r.files[fileId].packets - {seqNo} == t.packets - {seqNo}
    ensures r.files - {fileId} == s.files - {fileId}
    ensures r.manifest == s.manifest && r.manifestTotal == s.manifestTotal && r.stats == s.stats
  {
    if fileId !in s.files then s
    else
      var t := s.files[fileId];
      s.(files := s.files[fileId := t.(packets := t.packets[seqNo := data], received := t.received + 1)])
  }

  /**
   * `handle_file_end`: a known id whose count equals its total is saved as its
   * payloads in ascending sequence order, counted as completed and removed; an
   * unknown id or a count that differs from the total leaves everything as it
   * was, the entry included.
   */
  function HandleEnd(s: State, fileId: nat): (r: Step)
    ensures r.saved.Some? <==> fileId in s.files && s.files[fileId].received == s.files[fileId].total
    ensures r.saved.None? ==> r.state == s
    ensures r.saved.Some? ==>
      && r.saved.value == SavedFile(s.files[fileId].name, Assemble(s.files[fileId].packets))
      && r.state.files == s.files - {fileId}
      && r.state.stats == s.stats.(completed := s.stats.completed + 1)
      && r.state.manifest == s.manifest && r.state.manifestTotal == s.manifestTotal
  {
    if fileId !in s.files then Step(s, None)
    else
      var t := s.files[fileId];
      if t.received != t.total then Step(s, None)
      else
        Step(s.(files := s.files - {fileId}, stats := s.stats.(completed := s.stats.completed + 1)),
             Some(SavedFile(t.name, Assemble(t.packets))))
  }

  /**
   * `handle_manifest`: the payload is stored under its sequence number, the
   * frame's total becomes the manifest's total, and the manifest is written, as
   * its payloads in ascending order, whenever the buffer then holds as many
   * entries as that total. The buffer is never emptied and the frame's file id
   * is not looked at.
   */
  function HandleManifest(s: State, seqNo: nat, total: nat, data: seq<byte>): (r: Step)
    ensures r.state.manifest == s.manifest[seqNo := data]
    ensures s.manifest.Keys <= r.state.manifest.Keys
    ensures r.state.manifestTotal == total
    ensures r.saved.Some? <==> |r.state.manifest| == total
    ensures r.saved.Some? ==> r.saved.value == SavedManifest(Assemble(r.state.manifest))
    ensures r.state.files == s.files && r.state.stats == s.stats
  {
    var m := s.manifest[seqNo := data];
    var next := s.(manifest := m, manifestTotal := total);
    if |m| == total then Step(next, Some(SavedManifest(Assemble(m)))) else Step(next, None)
  }

  /** The dispatch of `receive_packet` on a parsed packet's kind; kinds other than 1 to 4, ACK_REQUEST among them, change nothing. */
  function Dispatch(s: State, p: Packet): (r: Step)
    ensures !(PktFileStart <= p.kind <= PktManifest) ==> r == Step(s, None)
    ensures r.state.stats.received == s.stats.received && r.state.stats.failed == s.stats.failed
    ensures r.state.stats.completed == s.stats.completed + (if r.saved.Some? && r.saved.value.SavedFile? then 1 else 0)
    ensures p.kind != PktManifest ==> r.state.manifest == s.manifest && r.state.manifestTotal == s.manifestTotal
    ensures p.kind == PktManifest ==> r.state.files == s.files
    ensures r.saved.Some? && r.saved.value.SavedFile? ==> p.kind == PktFileEnd
  {
    if p.kind == PktFileStart then Step(HandleStart(s, p.fileId, p.total, p.data), None)
    else if p.kind == PktFileData then Step(HandleData(s, p.fileId, p.seqNo, p.data), None)
    else if p.kind == PktFileEnd then HandleEnd(s, p.fileId)
    else if p.kind == PktManifest then HandleManifest(s, p.seqNo, p.total, p.data)
    else Step(s, None)
  }

  /** Which `parse_packet` the receiver runs: the one in the source, or the one its header comment documents. */
  datatype Decoder = AsWritten | AsDocumented

  /** The chosen decoder applied to a frame. */
  function Parse(d: Decoder, frame: seq<byte>): Option<Packet>
  {
    match d
    case AsWritten => ParseLiteral(frame)
    case AsDocumented => ParseIntended(frame)
  }

  /** The state after one read, what was written, and `receive_packet`'s return value. */
  datatype Received = Received(state: State, saved: Option<Saved>, handled: bool)

  /**
   * `receive_packet` on one read: an empty read returns False and changes
   * nothing; any other read is counted as received; one that does not parse is
   * counted as failed and returns False; one that parses is handled by its kind
   * and returns True, whatever the kind.
   */
  function ReceivePacket(s: State, frame: seq<byte>, d: Decoder): (r: Received)
    ensures |frame| == 0 ==> r == Received(s, None, false)
    ensures r.handled <==> |frame| > 0 && Parse(d, frame).Some?
    ensures r.state.stats.received == s.stats.received + (if |frame| > 0 then 1 else 0)
    ensures r.state.stats.failed == s.stats.failed + (if |frame| > 0 && Parse(d, frame).None? then 1 else 0)
    ensures r.state.stats.completed == s.stats.completed + (if r.saved.Some? && r.saved.value.SavedFile? then 1 else 0)
    ensures !r.handled ==> r.saved.None? && r.state.files == s.files && r.state.manifest == s.manifest
                           && r.state.manifestTotal == s.manifestTotal
  {
    if |frame| == 0 then Received(s, None, false)
    else
      var counted := s.(stats := s.stats.(received := s.stats.received + 1));
      match Parse(d, frame)
      case None => Received(counted.(stats := counted.stats.(failed := counted.stats.failed + 1)), None, false)
      case Some(p) =>
        var step := Dispatch(counted, p);
        Received(step.state, step.saved, true)
  }

  /** The state after a run of reads and everything written on the way, in order. */
  datatype Outcome = Outcome(state: State, saved: seq<Saved>)

  /** The record of a write, if there was one, as a list. */
  function Written(saved: Option<Saved>): seq<Saved>
  {
    if saved.Some? then [saved.value] else []
  }

  /** One more read after a run. */
  function Next(o: Outcome, frame: seq<byte>, d: Decoder): Outcome
  {
    var r := ReceivePacket(o.state, frame, d);
    Outcome(r.state, o.saved + Written(r.saved))
  }

  /** The receiver driven by a sequence of reads, one `receive_packet` call each, starting from s. */
  function Run(s: State, input: seq<seq<byte>>, d: Decoder): Outcome
    decreases |input|
  {
    if |input| == 0 then Outcome(s, [])
    else Next(Run(s, input[..|input| - 1], d), input[|input| - 1], d)
  }

  /** A run over reads is the run over all but the last followed by the last. */
  lemma RunLast(s: State, input: seq<seq<byte>>, d: Decoder)
    requires |input| > 0
    ensures Run(s, input, d) == Next(Run(s, input[..|input| - 1], d), input[|input| - 1], d)
  {
  }

  /** A run of n reads followed by a read with a known effect is the run of n + 1 reads with that effect. */
  lemma RunExtend(s: State, input: seq<seq<byte>>, d: Decoder, n: nat, o: Outcome, o': Outcome)
    requires 0 < n <= |input| && Run(s, input[..n - 1], d) == o && Next(o, input[n - 1], d) == o'
    ensures Run(s, input[..n], d) == o'
  {
    RunPrefix(s, input, d, n - 1);
  }

  /** A run whose last read has a known result ends with that result. */
  lemma RunLastKnown(s: State, input: seq<seq<byte>>, d: Decoder, o: Outcome, r: Received)
    requires |input| > 0 && Run(s, input[..|input| - 1], d) == o
    requires ReceivePacket(o.state, input[|input| - 1], d) == r
    ensures Run(s, input, d) == Outcome(r.state, o.saved + Written(r.saved))
  {
  }

  /** A run over the first n + 1 reads is the run over the first n followed by read n. */
  lemma RunPrefix(s: State, input: seq<seq<byte>>, d: Decoder, n: nat)
    requires n < |input|
    ensures Run(s, input[..n + 1], d) == Next(Run(s, input[..n], d), input[n], d)
  {
    assert input[..n + 1][..n] == input[..n];
  }

  /** The number of non-empty reads. */
  function NonEmpty(input: seq<seq<byte>>): nat
  {
    if |input| == 0 then 0
    else NonEmpty(input[..|input| - 1]) + (if |input[|input| - 1]| > 0 then 1 else 0)
  }

  /** The number of non-empty reads the decoder refuses. */
  function Rejected(input: seq<seq<byte>>, d: Decoder): nat
  {
    if |input| == 0 then 0
    else
      var last := input[|input| - 1];
      Rejected(input[..|input| - 1], d) + (if |last| > 0 && Parse(d, last).None? then 1 else 0)
  }

  /** The number of files among the writes. */
  function FilesSaved(saved: seq<Saved>): nat
  {
    if |saved| == 0 then 0
    else FilesSaved(saved[..|saved| - 1]) + (if saved[|saved| - 1].SavedFile? then 1 else 0)
  }

  /** Counting files over a list followed by at most one more write. */
  lemma FilesSavedAppend(saved: seq<Saved>, more: Option<Saved>)
    ensures FilesSaved(saved + Written(more)) == FilesSaved(saved) + (if more.Some? && more.value.SavedFile? then 1 else 0)
  {
    if more.Some? {
      assert (saved + [more.value])[..|saved|] == saved;
    } else {
      assert saved + [] == saved;
    }
  }

  /**
   * Over a run, `packets_received` grows by the non-empty reads, `packets_failed`
   * by those that did not parse, and `files_completed` by the files written.
   */
  lemma {:induction false} RunStats(s: State, input: seq<seq<byte>>, d: Decoder)
    ensures var o := Run(s, input, d);
            && o.state.stats.received == s.stats.received + NonEmpty(input)
            && o.state.stats.failed == s.stats.failed + Rejected(input, d)
            && o.state.stats.completed == s.stats.completed + FilesSaved(o.saved)
    decreases |input|
  {
    if |input| > 0 {
      RunStats(s, input[..|input| - 1], d);
      var o := Run(s, input[..|input| - 1], d);
      FilesSavedAppend(o.saved, ReceivePacket(o.state, input[|input| - 1], d).saved);
    }
  }

  /** A read either failed to parse or was parsed, and only a parsed one can write a file. */
  lemma {:induction false} RejectedOrSaved(s: State, input: seq<seq<byte>>, d: Decoder)
    ensures Rejected(input, d) + FilesSaved(Run(s, input, d).saved) <= NonEmpty(input)
    decreases |input|
  {
    if |input| > 0 {
      RejectedOrSaved(s, input[..|input| - 1], d);
      var o := Run(s, input[..|input| - 1], d);
      FilesSavedAppend(o.saved, ReceivePacket(o.state, input[|input| - 1], d).saved);
    }
  }

  /** The counters never claim more failed or completed reads than were received. */
  lemma StatsStayBounded(s: State, input: seq<seq<byte>>, d: Decoder)
    requires StatsBounded(s.stats)
    ensures StatsBounded(Run(s, input, d).state.stats)
  {
    RunStats(s, input, d);
    RejectedOrSaved(s, input, d);
  }

  /**
   * `listen`: one `receive_packet` per read, for as long as there are reads. It
   * ends in the state of the run, having written what the run writes.
   */
  method Listen(s: State, input: seq<seq<byte>>, d: Decoder) returns (r: State, saved: seq<Saved>)
    ensures Outcome(r, saved) == Run(s, input, d)
    ensures r.stats.received == s.stats.received + NonEmpty(input)
    ensures StatsBounded(s.stats) ==> StatsBounded(r.stats)
  {
    r, saved := s, [];
    var i := 0;
    while i < |input|
      invariant 0 <= i <= |input|
      invariant Outcome(r, saved) == Run(s, input[..i], d)
    {
      assert input[..i + 1][..i] == input[..i];
      var step := ReceivePacket(r, input[i], d);
      r, saved := step.state, saved + Written(step.saved);
      i := i + 1;
    }
    assert input[..|input|] == input;
    RunStats(s, input, d);
    if StatsBounded(s.stats) {
      StatsStayBounded(s, input, d);
    }
  }

  /** With the decoder as written every non-empty read is counted as received and as failed, and returns False. */
  lemma LiteralReceivesNothing(s: State, frame: seq<byte>)
    requires |frame| > 0
    ensures ReceivePacket(s, frame, AsWritten)
         == Received(s.(stats := s.stats.(received := s.stats.received + 1, failed := s.stats.failed + 1)), None, false)
  {
    ParseLiteralRejectsAll(frame);
  }

  /**
   * With the decoder as written a run of reads never starts, fills or saves a
   * file or the manifest: only the two counters move, by the same amount.
   */
  lemma {:induction false} LiteralRunReceivesNothing(s: State, input: seq<seq<byte>>)
    ensures var o := Run(s, input, AsWritten);
            && o.saved == []
            && o.state == s.(stats := s.stats.(received := s.stats.received + NonEmpty(input),
                                               failed := s.stats.failed + NonEmpty(input)))
    decreases |input|
  {
    if |input| > 0 {
      LiteralRunReceivesNothing(s, input[..|input| - 1]);
      var last := input[|input| - 1];
      if |last| > 0 {
        LiteralReceivesNothing(Run(s, input[..|input| - 1], AsWritten).state, last);
      }
    }
  }

  /** DATA frames of one file with different sequence numbers may arrive in either order. */
  lemma DataCommutes(s: State, fileId: nat, i: nat, a: seq<byte>, j: nat, b: seq<byte>)
    requires i != j
    ensures HandleData(HandleData(s, fileId, i, a), fileId, j, b) == HandleData(HandleData(s, fileId, j, b), fileId, i, a)
  {
    if fileId in s.files {
      var t := s.files[fileId];
      assert t.packets[i := a][j := b] == t.packets[j := b][i := a];
    }
  }

  /** The state after START for a file and then DATA frames with the given sequence numbers and payloads. */
  function AfterData(s: State, fileId: nat, total: nat, name: seq<byte>, seqs: seq<nat>, parts: seq<seq<byte>>): State
    requires |seqs| == |parts|
  {
    if |seqs| == 0 then HandleStart(s, fileId, total, name)
    else HandleData(AfterData(s, fileId, total, name, seqs[..|seqs| - 1], parts[..|parts| - 1]),
                    fileId, seqs[|seqs| - 1], parts[|parts| - 1])
  }

  /**
   * After START, the entry counts every DATA frame, repeats included, and holds
   * the last payload seen for each sequence number.
   */
  lemma {:induction false} AfterDataEntry(s: State, fileId: nat, total: nat, name: seq<byte>,
                                          seqs: seq<nat>, parts: seq<seq<byte>>)
    requires |seqs| == |parts|
    ensures var r := AfterData(s, fileId, total, name, seqs, parts);
            && fileId in r.files
            && r.files[fileId].name == name && r.files[fileId].total == total
            && r.files[fileId].received == |seqs|
            && r.files[fileId].packets.Keys == set i | 0 <= i < |seqs| :: seqs[i]
    decreases |seqs|
  {
    if |seqs| > 0 {
      var n := |seqs| - 1;
      AfterDataEntry(s, fileId, total, name, seqs[..n], parts[..n]);
      var before := set i | 0 <= i < n :: seqs[..n][i];
      assert (set i | 0 <= i < |seqs| :: seqs[i]) == before + {seqs[n]} by {
        forall x | x in before ensures x in set i | 0 <= i < |seqs| :: seqs[i] {
          var i :| 0 <= i < n && seqs[..n][i] == x;
          assert seqs[i] == x;
        }
      }
    }
  }

  /**
   * The duplicate gap, first case: START with total 3, then DATA 0, 0, 1, 2 counts
   * four frames, so END saves nothing and leaves the entry in place although every
   * chunk arrived.
   */
  lemma RepeatBlocksCompletion(s: State, fileId: nat, name: seq<byte>, c0: seq<byte>, c1: seq<byte>, c2: seq<byte>)
    ensures var r0 := HandleStart(s, fileId, 3, name);
            var r := HandleData(HandleData(HandleData(HandleData(r0, fileId, 0, c0), fileId, 0, c0), fileId, 1, c1), fileId, 2, c2);
            && fileId in r.files
            && r.files[fileId].packets == map[0 := c0, 1 := c1, 2 := c2]
            && r.files[fileId].received == 4
            && HandleEnd(r, fileId) == Step(r, None)
  {
  }

  /**
   * The duplicate gap, second case: START with total 3, then DATA 0, 0, 1 counts
   * three frames, so END saves the file from chunks 0 and 1 only, chunk 2 never
   * having arrived, and counts it as completed.
   */
  lemma RepeatCompletesWithGap(s: State, fileId: nat, name: seq<byte>, c0: seq<byte>, d0: seq<byte>, c1: seq<byte>)
    ensures var r0 := HandleStart(s, fileId, 3, name);
            var r := HandleData(HandleData(HandleData(r0, fileId, 0, c0), fileId, 0, d0), fileId, 1, c1);
            && HandleEnd(r, fileId).saved == Some(SavedFile(name, d0 + c1))
            && HandleEnd(r, fileId).state.stats.completed == s.stats.completed + 1
  {
    var r0 := HandleStart(s, fileId, 3, name);
    var r := HandleData(HandleData(HandleData(r0, fileId, 0, c0), fileId, 0, d0), fileId, 1, c1);
    var m := r.files[fileId].packets;
    assert m == map[0 := d0, 1 := c1];
    assert HoldsRange(m, [d0, c1], 0, 2);
    AssembleRange(m, [d0, c1], 0, 2);
    var parts := [d0, c1];
    assert parts[0..2] == parts;
    assert Concat(parts[1..]) == c1 by {
      assert parts[1..] == [c1] && [c1][1..] == [];
      assert Concat([c1]) == c1 + Concat([]);
      assert c1 + [] == c1;
    }
  }

  /** The manifest buffer only ever gains sequence numbers. */
  lemma {:induction false} ManifestOnlyGrows(s: State, input: seq<seq<byte>>, d: Decoder)
    ensures s.manifest.Keys <= Run(s, input, d).state.manifest.Keys
    decreases |input|
  {
    if |input| > 0 {
      ManifestOnlyGrows(s, input[..|input| - 1], d);
    }
  }

  /**
   * A stale buffer blocks a smaller manifest: once the buffer holds more entries
   * than a later transmission's total, no frame of that transmission gets the
   * manifest written.
   */
  lemma StaleManifestBlocks(s: State, seqNo: nat, total: nat, data: seq<byte>)
    requires |s.manifest| > total
    ensures HandleManifest(s, seqNo, total, data).saved.None?
  {
    var m := HandleManifest(s, seqNo, total, data).state.manifest;
    assert s.manifest.Keys <= m.Keys;
    assert |s.manifest.Keys| <= |m.Keys| by {
      SubsetCard(s.manifest.Keys, m.Keys);
    }
  }

  /** A subset has no more elements than its superset. */
  lemma {:induction false} SubsetCard(a: set<nat>, b: set<nat>)
    requires a <= b
    ensures |a| <= |b|
    decreases |a|
  {
    if a != {} {
      var x :| x in a;
      SubsetCard(a - {x}, b - {x});
    }
  }
}
