/**
 * The transmitter of `transmit/lora_transmit.py`: how a file and the manifest are
 * cut into frames, the order the frames go out in, the three-attempt retry around
 * each radio send, the stop at the first frame that cannot be sent, and the file
 * ids `transmit_images` hands out.
 *
 * The radio is a `Link` oracle: attempt number n of the session (counted over all
 * frames) either goes out or raises. Files are `Node`s of an abstract directory.
 */
module Sender {
  import opened Wrappers
  import opened Struct
  import opened Codec
  import opened Text
  import opened Sorting

  /** `MAX_PAYLOAD - HEADER_SIZE`: the most bytes of a file one frame carries. */
  const DataPerPacket: nat := MaxPayload - HeaderSize

  /** The file id the manifest is sent under. */
  const ManifestId: nat := 255

  /** `send_packet`'s default number of attempts. */
  const Retries: nat := 3

  /**
   * The frame count `(size + data_per_packet - 1) // data_per_packet`: the ceiling
   * of size / 240, the fewest 240-byte frames that hold size bytes.
   */
  function TotalPackets(size: nat): (r: nat)
    ensures r * DataPerPacket >= size
    ensures r > 0 ==> (r - 1) * DataPerPacket < size
    ensures r == 0 <==> size == 0
  {
    (size + DataPerPacket - 1) / DataPerPacket
  }

  /** Chunk k of a file: bytes `[k * 240 : min(k * 240 + 240, size)]`. */
  function Chunk(data: seq<byte>, k: nat): seq<byte>
    requires k < TotalPackets(|data|)
  {
    var lo := k * DataPerPacket;
    var hi := if lo + DataPerPacket < |data| then lo + DataPerPacket else |data|;
    data[lo..hi]
  }

  /** The chunks of a file, in the order they are sent: 1 to 240 bytes each, all but the last exactly 240. */
  function Chunks(data: seq<byte>): (r: seq<seq<byte>>)
    ensures |r| == TotalPackets(|data|)
    ensures forall k :: 0 <= k < |r| ==> 1 <= |r[k]| <= DataPerPacket
    ensures forall k :: 0 <= k < |r| - 1 ==> |r[k]| == DataPerPacket
  {
    seq(TotalPackets(|data|), k requires 0 <= k < TotalPackets(|data|) => Chunk(data, k))
  }

  /** The concatenation of a sequence of byte strings. */
  function Concat(parts: seq<seq<byte>>): seq<byte>
  {
    if |parts| == 0 then [] else parts[0] + Concat(parts[1..])
  }

  /** The chunks from k on, concatenated, are the file from byte k * 240 on. */
  lemma {:induction false} ConcatChunksFrom(data: seq<byte>, k: nat)
    requires k <= TotalPackets(|data|)
    ensures k * DataPerPacket <= |data| || k == TotalPackets(|data|)
    ensures Concat(Chunks(data)[k..]) == data[if k * DataPerPacket <= |data| then k * DataPerPacket else |data|..]
    decreases TotalPackets(|data|) - k
  {
    var cs := Chunks(data);
    if k == |cs| {
      assert cs[k..] == [];
    } else {
      ConcatChunksFrom(data, k + 1);
      assert cs[k..] == [cs[k]] + cs[k + 1..];
      var lo := k * DataPerPacket;
      var hi := if lo + DataPerPacket < |data| then lo + DataPerPacket else |data|;
      assert cs[k] == data[lo..hi];
      assert data[lo..] == data[lo..hi] + data[hi..];
    }
  }

  /** The chunks, concatenated in order, are the file. */
  lemma ConcatChunks(data: seq<byte>)
    ensures Concat(Chunks(data)) == data
  {
    ConcatChunksFrom(data, 0);
    assert Chunks(data)[0..] == Chunks(data);
  }

  /** The first 240 bytes of the encoded file name, as the START frame carries it. */
  function CutName(name: seq<byte>): (r: seq<byte>)
    ensures |r| <= DataPerPacket && r <= name
    ensures |name| <= DataPerPacket ==> r == name
    ensures |name| > DataPerPacket ==> r == name[..DataPerPacket]
  {
    if |name| <= DataPerPacket then name else name[..DataPerPacket]
  }

  /** The frames of `send_file` for a file's name and bytes: START, DATA 0 .. total - 1, END. */
  function FilePackets(fileId: nat, name: seq<byte>, data: seq<byte>): seq<Packet>
  {
    var total := TotalPackets(|data|);
    [Packet(PktFileStart, fileId, 0, total, CutName(name))]
    + seq(total, k requires 0 <= k < total => Packet(PktFileData, fileId, k, total, Chunk(data, k)))
    + [Packet(PktFileEnd, fileId, total, total, [])]
  }

  /** Frame k of `send_file`: START first, then DATA k - 1 for chunk k - 1, and END last. */
  lemma FilePacketAt(fileId: nat, name: seq<byte>, data: seq<byte>, k: nat)
    requires k < TotalPackets(|data|) + 2
    ensures var total := TotalPackets(|data|);
            FilePackets(fileId, name, data)[k]
            == (if k == 0 then Packet(PktFileStart, fileId, 0, total, CutName(name))
                else if k <= total then Packet(PktFileData, fileId, k - 1, total, Chunk(data, k - 1))
                else Packet(PktFileEnd, fileId, total, total, []))
  {
  }

  /** The frames of `send_manifest`: MANIFEST 0 .. total - 1 under id 255, and no START or END. */
  function ManifestPackets(content: seq<byte>): seq<Packet>
  {
    var total := TotalPackets(|content|);
    seq(total, k requires 0 <= k < total => Packet(PktManifest, ManifestId, k, total, Chunk(content, k)))
  }

  /** The payloads of a sequence of packets. */
  function Payloads(packets: seq<Packet>): (r: seq<seq<byte>>)
    ensures |r| == |packets|
    ensures forall i :: 0 <= i < |r| ==> r[i] == packets[i].data
  {
    seq(|packets|, i requires 0 <= i < |packets| => packets[i].data)
  }

  /**
   * The frame order of `send_file`: a START carrying the cut name and the frame
   * count, then one DATA frame per chunk with ascending sequence numbers 0 .. total - 1
   * whose payloads add up to the file, then an END whose sequence number is the count.
   * An empty file is sent as a START and an END, both with frame count 0.
   */
  lemma FileFrameOrder(fileId: nat, name: seq<byte>, data: seq<byte>)
    ensures var ps := FilePackets(fileId, name, data);
            var total := TotalPackets(|data|);
            && |ps| == total + 2
            && ps[0] == Packet(PktFileStart, fileId, 0, total, CutName(name))
            && ps[total + 1] == Packet(PktFileEnd, fileId, total, total, [])
            && (forall k :: 1 <= k <= total ==>
                  ps[k].kind == PktFileData && ps[k].fileId == fileId && ps[k].seqNo == k - 1 && ps[k].total == total)
            && Concat(Payloads(ps[1..total + 1])) == data
            && (|data| == 0 ==> ps == [Packet(PktFileStart, fileId, 0, 0, CutName(name)),
                                      Packet(PktFileEnd, fileId, 0, 0, [])])
  {
    var ps := FilePackets(fileId, name, data);
    var total := TotalPackets(|data|);
    assert Payloads(ps[1..total + 1]) == Chunks(data);
    ConcatChunks(data);
  }

  /**
   * The manifest goes out as MANIFEST frames only, all under id 255, numbered
   * 0 .. total - 1, whose payloads add up to the manifest; an empty manifest sends nothing.
   */
  lemma ManifestFrameOrder(content: seq<byte>)
    ensures var ps := ManifestPackets(content);
            && |ps| == TotalPackets(|content|)
            && (forall k :: 0 <= k < |ps| ==>
                  ps[k].kind == PktManifest && ps[k].fileId == ManifestId && ps[k].seqNo == k && ps[k].total == |ps|)
            && Concat(Payloads(ps)) == content
            && (|content| == 0 ==> ps == [])
  {
    assert Payloads(ManifestPackets(content)) == Chunks(content);
    ConcatChunks(content);
  }

  /** `create_packet` applied to a packet's fields. */
  function Encode(p: Packet): (r: Result<seq<byte>, EncodeError>)
    ensures r.Success? <==> Encodable(p.kind, p.fileId, p.seqNo, p.total, p.data)
  {
    CreatePacket(p.kind, p.fileId, p.seqNo, p.total, p.data)
  }

  /** Every packet's fields fit the header. */
  predicate AllEncodable(packets: seq<Packet>)
  {
    forall i :: 0 <= i < |packets| ==> Encode(packets[i]).Success?
  }

  /**
   * A file's frames either all fit the header or the very first (START) does not:
   * it is exactly the file id above 255 or a file of 65536 frames or more that raises
   * `struct.error`, and then before anything is sent.
   */
  lemma FilePacketsEncodable(fileId: nat, name: seq<byte>, data: seq<byte>)
    ensures AllEncodable(FilePackets(fileId, name, data)) <==> fileId < 256 && TotalPackets(|data|) < 0x10000
    ensures Encode(FilePackets(fileId, name, data)[0]).Success? <==> AllEncodable(FilePackets(fileId, name, data))
  {
    var ps := FilePackets(fileId, name, data);
    var total := TotalPackets(|data|);
    var cs := Chunks(data);
    assert forall k :: 1 <= k <= total ==> ps[k].data == Chunks(data)[k - 1];
  }

  /** Every manifest frame fits the header exactly when the manifest needs fewer than 65536 frames. */
  lemma ManifestPacketsEncodable(content: seq<byte>)
    ensures AllEncodable(ManifestPackets(content)) <==> TotalPackets(|content|) < 0x10000
  {
    var ps := ManifestPackets(content);
    var cs := Chunks(content);
    assert forall k :: 0 <= k < |ps| ==> ps[k].data == Chunks(content)[k];
    if TotalPackets(|content|) >= 0x10000 {
      assert !Encode(ps[0]).Success?;
    }
  }

  /** Whether attempt number n of the session gets through `rfm9x.send` (true) or raises (false). */
  type Link = nat -> bool

  /** Whether a frame went out, and how many attempts that took. */
  datatype Try = Try(sent: bool, used: nat)

  /**
   * `send_packet` with the given number of attempts, starting at attempt number
   * clock: the frame goes out on the first attempt that does not raise.
   */
  function Attempts(link: Link, clock: nat, retries: nat): (r: Try)
    ensures r.used <= retries
    ensures r.sent ==> 1 <= r.used
    ensures !r.sent ==> r.used == retries
    decreases retries
  {
    if retries == 0 then Try(false, 0)
    else if link(clock) then Try(true, 1)
    else
      var t := Attempts(link, clock + 1, retries - 1);
      Try(t.sent, t.used + 1)
  }

  /**
   * `send_packet` returns True exactly when one of its attempts gets through,
   * and then the attempts before the successful one all raised.
   */
  lemma {:induction false} AttemptsMeaning(link: Link, clock: nat, retries: nat)
    ensures Attempts(link, clock, retries).sent <==> exists n :: clock <= n < clock + retries && link(n)
    ensures var t := Attempts(link, clock, retries);
            t.sent ==> link(clock + t.used - 1) && forall n :: clock <= n < clock + t.used - 1 ==> !link(n)
    decreases retries
  {
    if retries > 0 && !link(clock) {
      AttemptsMeaning(link, clock + 1, retries - 1);
      var t := Attempts(link, clock + 1, retries - 1);
      if t.sent {
        assert link(clock + t.used);
      } else {
        assert forall n :: clock <= n < clock + retries ==> !link(n) by {
          forall n | clock <= n < clock + retries
            ensures !link(n)
          {
            if n > clock {
              assert !(clock + 1 <= n < clock + 1 + (retries - 1) && link(n));
            }
          }
        }
      }
    }
  }

  /** Attempts that raise only add to the count of attempts used. */
  lemma {:induction false} AttemptsSkip(link: Link, clock: nat, k: nat, retries: nat)
    requires k <= retries
    requires forall n :: clock <= n < clock + k ==> !link(n)
    ensures Attempts(link, clock, retries)
         == Try(Attempts(link, clock + k, retries - k).sent, Attempts(link, clock + k, retries - k).used + k)
    decreases k
  {
    if k > 0 {
      AttemptsSkip(link, clock + 1, k - 1, retries - 1);
    }
  }

  /** How many of the attempts numbered lo .. hi - 1 get through. */
  function Hits(link: Link, lo: nat, hi: nat): nat
    decreases hi - lo
  {
    if hi <= lo then 0 else (if link(lo) then 1 else 0) + Hits(link, lo + 1, hi)
  }

  /** The `Retries` attempts numbered from n all raise: as many as one `send_packet` call makes. */
  predicate AllRaise(link: Link, n: nat)
  {
    forall m :: n <= m < n + Retries ==> !link(m)
  }

  /** When `send_packet` gets through, no run of three raising attempts starts among the attempts it made. */
  lemma AttemptsBreakRuns(link: Link, clock: nat)
    requires Attempts(link, clock, Retries).sent
    ensures forall n: nat :: clock <= n < clock + Attempts(link, clock, Retries).used ==> !AllRaise(link, n)
  {
    var t := Attempts(link, clock, Retries);
    AttemptsMeaning(link, clock, Retries);
    forall n: nat | clock <= n < clock + t.used
      ensures !AllRaise(link, n)
    {
      assert link(clock + t.used - 1);
    }
  }

  /** Counting the attempts that get through over two adjacent ranges. */
  lemma {:induction false} HitsSplit(link: Link, lo: nat, mid: nat, hi: nat)
    requires lo <= mid <= hi
    ensures Hits(link, lo, hi) == Hits(link, lo, mid) + Hits(link, mid, hi)
    decreases mid - lo
  {
    if lo < mid {
      HitsSplit(link, lo + 1, mid, hi);
    }
  }

  /** `send_packet` stops at the attempt that gets through: its attempts hold one hit when it sent, none otherwise. */
  lemma {:induction false} AttemptsHits(link: Link, clock: nat, retries: nat)
    ensures var t := Attempts(link, clock, retries);
            Hits(link, clock, clock + t.used) == if t.sent then 1 else 0
    decreases retries
  {
    if retries > 0 && !link(clock) {
      AttemptsHits(link, clock + 1, retries - 1);
    }
  }

  /** What made `send_file`, `send_manifest` or `transmit_images` raise. */
  datatype Fault =
    | IsADirectory   // `open` on a path that is a directory
    | FieldTooWide   // `struct.error` from `create_packet`

  /** How a send operation ended: with a return value or with an exception. */
  datatype Outcome = Returned(ok: bool) | Raised(fault: Fault)

  /** The ending of a send operation, the frames it put on the air in order, and the next attempt number. */
  datatype Sending = Sending(outcome: Outcome, onAir: seq<seq<byte>>, clock: nat)

  /** What `create_packet` gives for each packet of a list, in order. */
  function EncodeEach(packets: seq<Packet>): (r: seq<Result<seq<byte>, EncodeError>>)
    ensures |r| == |packets|
    ensures forall i :: 0 <= i < |r| ==> r[i] == Encode(packets[i])
  {
    seq(|packets|, i requires 0 <= i < |packets| => Encode(packets[i]))
  }

  /** onAir holds, in order, the bytes of the first |onAir| frames, each encoded without error. */
  predicate SentPrefix(onAir: seq<seq<byte>>, frames: seq<Result<seq<byte>, EncodeError>>)
  {
    && |onAir| <= |frames|
    && (|onAir| == 0 || (frames[0] == Success(onAir[0]) && SentPrefix(onAir[1..], frames[1..])))
  }

  /** SentPrefix, element by element. */
  lemma {:induction false} SentPrefixEach(onAir: seq<seq<byte>>, frames: seq<Result<seq<byte>, EncodeError>>)
    ensures SentPrefix(onAir, frames)
        <==> |onAir| <= |frames| && forall i :: 0 <= i < |onAir| ==> frames[i] == Success(onAir[i])
    decreases |onAir|
  {
    if 0 < |onAir| <= |frames| {
      SentPrefixEach(onAir[1..], frames[1..]);
      assert forall i :: 1 <= i < |onAir| ==> onAir[1..][i - 1] == onAir[i] && frames[1..][i - 1] == frames[i];
    }
  }

  /**
   * The frame loops of `send_file` and `send_manifest` over the encodings of their
   * packets: each packet is encoded right before it is sent, so an encoding error
   * propagates when its turn comes, and the first frame that no attempt gets
   * through stops the loop with False, and three raising attempts in a row stop
   * it there: with False, right after the third. Exactly as many attempts got
   * through as frames went out.
   */
  function SendAll(link: Link, clock: nat, frames: seq<Result<seq<byte>, EncodeError>>): (r: Sending)
    ensures SentPrefix(r.onAir, frames)
    ensures r.outcome == Returned(true) <==> |r.onAir| == |frames|
    ensures r.outcome == Returned(false) ==> frames[|r.onAir|].Success?
    ensures r.outcome.Raised? ==> r.outcome.fault == FieldTooWide && frames[|r.onAir|].Failure?
    ensures r.outcome == Returned(false) ==>
              clock + Retries <= r.clock && forall n :: r.clock - Retries <= n < r.clock ==> !link(n)
    ensures clock <= r.clock && Hits(link, clock, r.clock) == |r.onAir|
    ensures forall n: nat :: clock <= n && n + Retries <= r.clock && AllRaise(link, n) ==>
              r.outcome == Returned(false) && n + Retries == r.clock
    decreases |frames|
  {
    if |frames| == 0 then Sending(Returned(true), [], clock)
    else if frames[0].Failure? then Sending(Raised(FieldTooWide), [], clock)
    else
      var a := Attempts(link, clock, Retries);
      AttemptsMeaning(link, clock, Retries);
      AttemptsHits(link, clock, Retries);
      if !a.sent then Sending(Returned(false), [], clock + a.used)
      else
        var rest := SendAll(link, clock + a.used, frames[1..]);
        HitsSplit(link, clock, clock + a.used, rest.clock);
        AttemptsBreakRuns(link, clock);
        var r := Prepend([frames[0].value], rest);
        assert r.onAir[1..] == rest.onAir;
        r
  }

  /** s preceded by frames that went on the air before it. */
  function Prepend(frames: seq<seq<byte>>, s: Sending): Sending
  {
    s.(onAir := frames + s.onAir)
  }

  /** A path of the directory: absent, a directory, or a regular file with its bytes. */
  datatype Node = Missing | Directory | Regular(content: seq<byte>)

  /**
   * `send_file(path, file_id)`, with name the UTF-8 encoding of the path's final
   * component: a missing path returns False before anything is sent, a directory
   * raises on `open`, and a regular file goes out as its frames.
   */
  function SendFile(link: Link, clock: nat, node: Node, name: seq<byte>, fileId: nat): Sending
  {
    match node
    case Missing => Sending(Returned(false), [], clock)
    case Directory => Sending(Raised(IsADirectory), [], clock)
    case Regular(data) => SendAll(link, clock, EncodeEach(FilePackets(fileId, name, data)))
  }

  /**
   * `send_manifest(path)`: a missing manifest returns False, a directory raises,
   * and a regular file goes out as MANIFEST frames.
   */
  function SendManifest(link: Link, clock: nat, node: Node): Sending
  {
    match node
    case Missing => Sending(Returned(false), [], clock)
    case Directory => Sending(Raised(IsADirectory), [], clock)
    case Regular(text) => SendAll(link, clock, EncodeEach(ManifestPackets(text)))
  }

  /** Every attempt from clock on gets through. */
  ghost predicate ClearFrom(link: Link, clock: nat)
  {
    forall n :: clock <= n ==> link(n)
  }

  /** Every frame of the list was encoded without error. */
  predicate AllSuccess(frames: seq<Result<seq<byte>, EncodeError>>)
  {
    forall i :: 0 <= i < |frames| ==> frames[i].Success?
  }

  /** The bytes of frames that were all encoded without error. */
  function Values(frames: seq<Result<seq<byte>, EncodeError>>): (r: seq<seq<byte>>)
    requires AllSuccess(frames)
    ensures |r| == |frames|
    ensures forall i :: 0 <= i < |r| ==> frames[i] == Success(r[i])
  {
    seq(|frames|, i requires 0 <= i < |frames| => frames[i].value)
  }

  /** Over a link on which every attempt gets through, every frame goes out once, in order, on its first attempt. */
  lemma {:induction false} SendAllClear(link: Link, clock: nat, frames: seq<Result<seq<byte>, EncodeError>>)
    requires ClearFrom(link, clock) && AllSuccess(frames)
    ensures SendAll(link, clock, frames) == Sending(Returned(true), Values(frames), clock + |frames|)
    decreases |frames|
  {
    if |frames| > 0 {
      assert link(clock);
      assert Attempts(link, clock, Retries) == Try(true, 1);
      assert AllSuccess(frames[1..]) by {
        assert forall i :: 0 <= i < |frames| - 1 ==> frames[1..][i] == frames[i + 1];
      }
      SendAllClear(link, clock + 1, frames[1..]);
      assert Values(frames) == [frames[0].value] + Values(frames[1..]);
    }
  }

  /**
   * `send_file` on a file whose frames all fit never raises and fails fast: it
   * returns True exactly when every frame went out, the frames on the air are
   * always the encodings of the file's first frames, in order, each sent by an
   * attempt that got through, and False comes from a frame whose three
   * attempts all raised, the last three made. Conversely, three raising
   * attempts in a row end the sending with False, right after the third.
   */
  lemma SendFileFailsFast(link: Link, clock: nat, data: seq<byte>, name: seq<byte>, fileId: nat)
    requires fileId < 256 && TotalPackets(|data|) < 0x10000
    ensures var s := SendFile(link, clock, Regular(data), name, fileId);
            var frames := EncodeEach(FilePackets(fileId, name, data));
            && s.outcome.Returned?
            && (s.outcome.ok <==> |s.onAir| == |frames|)
            && (forall i :: 0 <= i < |s.onAir| ==> frames[i] == Success(s.onAir[i]))
            && (!s.outcome.ok ==> clock + Retries <= s.clock && forall n :: s.clock - Retries <= n < s.clock ==> !link(n))
            && clock <= s.clock && Hits(link, clock, s.clock) == |s.onAir|
            && (forall n: nat :: clock <= n && n + Retries <= s.clock && AllRaise(link, n) ==>
                  !s.outcome.ok && n + Retries == s.clock)
  {
    var ps := FilePackets(fileId, name, data);
    FilePacketsEncodable(fileId, name, data);
    var frames := EncodeEach(ps);
    assert AllSuccess(frames);
    var s := SendAll(link, clock, frames);
    SentPrefixEach(s.onAir, frames);
  }

  /** Over a clear link, a file whose frames all fit goes out whole: every frame once, in order, and True. */
  lemma SendFileClear(link: Link, clock: nat, data: seq<byte>, name: seq<byte>, fileId: nat)
    requires ClearFrom(link, clock) && fileId < 256 && TotalPackets(|data|) < 0x10000
    ensures var frames := EncodeEach(FilePackets(fileId, name, data));
            && AllSuccess(frames)
            && SendFile(link, clock, Regular(data), name, fileId)
               == Sending(Returned(true), Values(frames), clock + |frames|)
  {
    FilePacketsEncodable(fileId, name, data);
    SendAllClear(link, clock, EncodeEach(FilePackets(fileId, name, data)));
  }

  /** An entry of the image directory: its file name and what is there. */
  datatype Entry = Entry(name: string, node: Node)

  /** `f.suffix.lower() == '.png'`: the test `transmit_images` picks images by; it does not ask for a regular file. */
  predicate IsPng(name: string)
  {
    Lower(Suffix(name)) == ".png"
  }

  /** The entries with a `.png` suffix, in listing order. */
  function PngEntries(listing: seq<Entry>): (r: seq<Entry>)
    ensures forall e :: e in r <==> e in listing && IsPng(e.name)
    ensures |r| <= |listing|
  {
    if |listing| == 0 then []
    else (if IsPng(listing[0].name) then [listing[0]] else []) + PngEntries(listing[1..])
  }

  /** The key paths of one directory are ordered by: their final component. */
  function NameOf(e: Entry): string
  {
    e.name
  }

  /** `sorted(...)` of the directory's `.png` paths: exactly those entries, in ascending name order. */
  function Images(listing: seq<Entry>): (r: seq<Entry>)
    ensures forall e :: e in r <==> e in listing && IsPng(e.name)
    ensures SortedBy(r, NameOf)
  {
    var r := SortBy(PngEntries(listing), NameOf);
    assert forall e :: e in r <==> e in multiset(r);
    r
  }

  /** What `input()` returns the k-th time `transmit_images` asks whether to go on. */
  type Answers = nat -> string

  /** `user_input.lower() == 'y'`: the answer that lets the run go on after a failed file. */
  predicate GoOn(answer: string)
  {
    Lower(answer) == "y"
  }

  /**
   * A run of `transmit_images`: what each `send_file` call returned, in order
   * (the call for file id i is the i-th), the frames put on the air, the next
   * attempt number, how many prompts were answered, and the exception that ended
   * the run if one did.
   */
  datatype Session = Session(results: seq<bool>, onAir: seq<seq<byte>>, clock: nat, prompts: nat, fault: Option<Fault>)

  /** The number of False values in a sequence of results. */
  function Failures(results: seq<bool>): nat
  {
    if |results| == 0 then 0 else (if results[0] then 0 else 1) + Failures(results[1..])
  }

  /** What a `send_file` call does, given the attempt number, the image and the file id. */
  type FileSender = (nat, Entry, nat) -> Sending

  /** `send_file` over the given link, with the file name encoded by encodeName. */
  function SendFileOver(link: Link, encodeName: string -> seq<byte>): FileSender
  {
    (clock: nat, e: Entry, fileId: nat) => SendFile(link, clock, e.node, encodeName(e.name), fileId)
  }

  /**
   * Every failed file among the results, except the last result, was followed by
   * a "y" to its prompt; prompt is the number of the first prompt.
   */
  predicate GoOnAfterEach(results: seq<bool>, answers: Answers, prompt: nat)
  {
    || |results| <= 1
    || (&& (results[0] || GoOn(answers(prompt)))
        && GoOnAfterEach(results[1..], answers, if results[0] then prompt else prompt + 1))
  }

  /**
   * The loop of `transmit_images` from file id `fileId` on: each image is sent
   * under its position in the sorted list; after a failed file the next answer
   * decides whether the loop goes on; an exception ends the run.
   */
  function SendImages(send: FileSender, clock: nat, images: seq<Entry>, answers: Answers, fileId: nat, prompts: nat)
    : (r: Session)
    requires fileId <= |images|
    decreases |images| - fileId
  {
    if fileId == |images| then Session([], [], clock, prompts, None)
    else
      var s := send(clock, images[fileId], fileId);
      match s.outcome
      case Raised(f) => Session([], s.onAir, s.clock, prompts, Some(f))
      case Returned(ok) =>
        if !ok && !GoOn(answers(prompts)) then Session([false], s.onAir, s.clock, prompts + 1, None)
        else
          var rest := SendImages(send, s.clock, images, answers, fileId + 1, if ok then prompts else prompts + 1);
          rest.(results := [ok] + rest.results, onAir := s.onAir + rest.onAir)
  }

  /** The loop sends each image at most once and answers one prompt per failed file. */
  lemma {:induction false} SendImagesCount(send: FileSender, clock: nat, images: seq<Entry>, answers: Answers,
                                           fileId: nat, prompts: nat)
    requires fileId <= |images|
    ensures var r := SendImages(send, clock, images, answers, fileId, prompts);
            |r.results| <= |images| - fileId && r.prompts == prompts + Failures(r.results)
    decreases |images| - fileId
  {
    if fileId < |images| {
      var s := send(clock, images[fileId], fileId);
      if s.outcome.Returned? && (s.outcome.ok || GoOn(answers(prompts))) {
        var p' := if s.outcome.ok then prompts else prompts + 1;
        SendImagesCount(send, s.clock, images, answers, fileId + 1, p');
        var rest := SendImages(send, s.clock, images, answers, fileId + 1, p');
        assert ([s.outcome.ok] + rest.results)[1..] == rest.results;
      }
    }
  }

  /** The loop goes on past a failed file only on a "y" answer, in either case, to that file's prompt. */
  lemma {:induction false} SendImagesGoOn(send: FileSender, clock: nat, images: seq<Entry>, answers: Answers,
                                          fileId: nat, prompts: nat)
    requires fileId <= |images|
    ensures GoOnAfterEach(SendImages(send, clock, images, answers, fileId, prompts).results, answers, prompts)
    decreases |images| - fileId
  {
    if fileId < |images| {
      var s := send(clock, images[fileId], fileId);
      if s.outcome.Returned? && (s.outcome.ok || GoOn(answers(prompts))) {
        var p' := if s.outcome.ok then prompts else prompts + 1;
        SendImagesGoOn(send, s.clock, images, answers, fileId + 1, p');
        var rest := SendImages(send, s.clock, images, answers, fileId + 1, p');
        assert ([s.outcome.ok] + rest.results)[1..] == rest.results;
      }
    }
  }

  /**
   * The loop stops before the last image without an exception only when a file
   * failed and the answer to its prompt was not "y".
   */
  lemma {:induction false} SendImagesStop(send: FileSender, clock: nat, images: seq<Entry>, answers: Answers,
                                          fileId: nat, prompts: nat)
    requires fileId <= |images|
    ensures var r := SendImages(send, clock, images, answers, fileId, prompts);
            r.fault.None? && |r.results| < |images| - fileId ==>
              |r.results| > 0 && !r.results[|r.results| - 1] && r.prompts > prompts && !GoOn(answers(r.prompts - 1))
    decreases |images| - fileId
  {
    if fileId < |images| {
      var s := send(clock, images[fileId], fileId);
      if s.outcome.Returned? && (s.outcome.ok || GoOn(answers(prompts))) {
        var p' := if s.outcome.ok then prompts else prompts + 1;
        SendImagesStop(send, s.clock, images, answers, fileId + 1, p');
      }
    }
  }

  /** The bytes on the air for a manifest whose frames all fit the header. */
  function ManifestFrames(content: seq<byte>): (r: seq<seq<byte>>)
    requires TotalPackets(|content|) < 0x10000
    ensures |r| == TotalPackets(|content|)
  {
    ManifestPacketsEncodable(content);
    Values(EncodeEach(ManifestPackets(content)))
  }

  /** The bytes on the air for a file whose frames all fit the header. */
  function FileFrames(fileId: nat, name: seq<byte>, data: seq<byte>): (r: seq<seq<byte>>)
    requires fileId < 256 && TotalPackets(|data|) < 0x10000
    ensures |r| == TotalPackets(|data|) + 2
    ensures forall k :: 0 <= k < |r| ==> Encode(FilePackets(fileId, name, data)[k]) == Success(r[k])
  {
    FilePacketsEncodable(fileId, name, data);
    Values(EncodeEach(FilePackets(fileId, name, data)))
  }

  /** Every image is a regular file of fewer than 65536 frames. */
  predicate Sendable(images: seq<Entry>)
  {
    forall i :: 0 <= i < |images| ==> images[i].node.Regular? && TotalPackets(|images[i].node.content|) < 0x10000
  }

  /** The frames of images lo .. hi - 1, each sent under its position as file id. */
  function ImageFrames(images: seq<Entry>, encodeName: string -> seq<byte>, lo: nat, hi: nat): seq<seq<byte>>
    requires lo <= hi <= |images| && hi <= 256 && Sendable(images)
    decreases hi - lo
  {
    if lo == hi then []
    else
      var e := images[lo];
      FileFrames(lo, encodeName(e.name), e.node.content) + ImageFrames(images, encodeName, lo + 1, hi)
  }

  /** n results that all succeeded. */
  function AllSent(n: nat): (r: seq<bool>)
    ensures |r| == n && Failures(r) == 0
  {
    if n == 0 then [] else [true] + AllSent(n - 1)
  }

  /**
   * Over a clear link, the loop's step for an image whose id fits its byte sends
   * the whole file in one go, leaves the link clear, and goes on with the next
   * image without a prompt.
   */
  lemma SendImagesClearStep(link: Link, clock: nat, images: seq<Entry>, encodeName: string -> seq<byte>,
                            answers: Answers, fileId: nat, prompts: nat)
    requires ClearFrom(link, clock) && Sendable(images) && fileId < |images| && fileId < 256
    ensures var e := images[fileId];
            var s := SendFile(link, clock, e.node, encodeName(e.name), fileId);
            var rest := SendImages(SendFileOver(link, encodeName), s.clock, images, answers, fileId + 1, prompts);
            && ClearFrom(link, s.clock) && clock <= s.clock
            && AllSuccess(EncodeEach(FilePackets(fileId, encodeName(e.name), e.node.content)))
            && SendImages(SendFileOver(link, encodeName), clock, images, answers, fileId, prompts)
               == rest.(results := [true] + rest.results,
                        onAir := FileFrames(fileId, encodeName(e.name), e.node.content) + rest.onAir)
  {
    var e := images[fileId];
    FilePacketsEncodable(fileId, encodeName(e.name), e.node.content);
    SendFileClear(link, clock, e.node.content, encodeName(e.name), fileId);
    assert SendFileOver(link, encodeName)(clock, e, fileId) == SendFile(link, clock, e.node, encodeName(e.name), fileId);
  }

  /**
   * Over a clear link, `transmit_images` sends the sorted images one after the
   * other under file ids 0, 1, 2, ..., each whole; file id 256 does not fit its
   * byte, so a 257th image raises `struct.error` before any of its frames is sent.
   */
  lemma {:induction false} SendImagesClear(link: Link, clock: nat, images: seq<Entry>, encodeName: string -> seq<byte>,
                                           answers: Answers, fileId: nat, prompts: nat)
    requires ClearFrom(link, clock) && Sendable(images) && fileId <= |images| && fileId <= 256
    ensures var r := SendImages(SendFileOver(link, encodeName), clock, images, answers, fileId, prompts);
            var hi := if |images| <= 256 then |images| else 256;
            && r.results == AllSent(hi - fileId)
            && r.onAir == ImageFrames(images, encodeName, fileId, hi)
            && r.prompts == prompts
            && r.fault == (if |images| <= 256 then None else Some(FieldTooWide))
            && clock <= r.clock
    decreases |images| - fileId
  {
    if fileId < |images| {
      var e := images[fileId];
      if fileId < 256 {
        SendImagesClearStep(link, clock, images, encodeName, answers, fileId, prompts);
        var s := SendFile(link, clock, e.node, encodeName(e.name), fileId);
        SendImagesClear(link, s.clock, images, encodeName, answers, fileId + 1, prompts);
      } else {
        SendImagesOverflow(link, clock, images, encodeName, answers, prompts);
      }
    }
  }

  /** File id 256 does not fit its byte: the 257th image raises before any of its frames is sent. */
  lemma SendImagesOverflow(link: Link, clock: nat, images: seq<Entry>, encodeName: string -> seq<byte>,
                           answers: Answers, prompts: nat)
    requires Sendable(images) && 256 < |images|
    ensures SendImages(SendFileOver(link, encodeName), clock, images, answers, 256, prompts)
         == Session([], [], clock, prompts, Some(FieldTooWide))
  {
    var e := images[256];
    var frames := EncodeEach(FilePackets(256, encodeName(e.name), e.node.content));
    assert frames[0].Failure?;
    assert SendFileOver(link, encodeName)(clock, e, 256) == SendFile(link, clock, e.node, encodeName(e.name), 256);
  }

  /** The value of the entry with the given name, if the listing has one. */
  function Lookup(listing: seq<Entry>, name: string): (r: Option<Node>)
    ensures r.Some? <==> exists i :: 0 <= i < |listing| && listing[i].name == name
    ensures r.Some? ==> Entry(name, r.value) in listing
  {
    if |listing| == 0 then None
    else if listing[0].name == name then Some(listing[0].node)
    else Lookup(listing[1..], name)
  }

  /** The manifest `transmit_images` sends: the one given, else `manifest.md5` of the directory when it exists. */
  function ManifestSource(listing: seq<Entry>, given: Option<Node>): Option<Node>
  {
    if given.Some? then given else Lookup(listing, "manifest.md5")
  }

  /**
   * The images going out in order with file ids 0, 1, 2, ..., and then, unless
   * an exception ended the loop, the manifest if there is one, whatever became
   * of the images.
   */
  function SendRun(link: Link, clock: nat, images: seq<Entry>, encodeName: string -> seq<byte>,
                   answers: Answers, manifest: Option<Node>): Session
  {
    var s := SendImages(SendFileOver(link, encodeName), clock, images, answers, 0, 0);
    if s.fault.Some? || manifest.None? then s
    else
      var m := SendManifest(link, s.clock, manifest.value);
      s.(onAir := s.onAir + m.onAir, clock := m.clock,
         fault := if m.outcome.Raised? then Some(m.outcome.fault) else None)
  }

  /**
   * `transmit_images(image_dir, manifest_path)`: nothing happens for a missing
   * directory or one without `.png` entries; otherwise its sorted images are sent
   * and then the manifest given, else the directory's `manifest.md5` if it has one.
   */
  function TransmitImages(link: Link, clock: nat, listing: Option<seq<Entry>>, encodeName: string -> seq<byte>,
                          answers: Answers, given: Option<Node>): (r: Session)
    ensures listing.None? || |Images(listing.value)| == 0 ==> r == Session([], [], clock, 0, None)
  {
    match listing
    case None => Session([], [], clock, 0, None)
    case Some(entries) =>
      var images := Images(entries);
      if |images| == 0 then Session([], [], clock, 0, None)
      else SendRun(link, clock, images, encodeName, answers, ManifestSource(entries, given))
  }

  /** A link clear from some attempt on is clear from every later one. */
  lemma ClearLater(link: Link, clock: nat, later: nat)
    requires ClearFrom(link, clock) && clock <= later
    ensures ClearFrom(link, later)
  {
  }

  /** Over a clear link a manifest of fewer than 65536 frames goes out whole, one attempt per frame. */
  lemma SendManifestClear(link: Link, clock: nat, content: seq<byte>)
    requires ClearFrom(link, clock) && TotalPackets(|content|) < 0x10000
    ensures SendManifest(link, clock, Regular(content))
         == Sending(Returned(true), ManifestFrames(content), clock + TotalPackets(|content|))
  {
    var frames := EncodeEach(ManifestPackets(content));
    assert AllSuccess(frames) by {
      ManifestPacketsEncodable(content);
    }
    SendAllClear(link, clock, frames);
    assert SendManifest(link, clock, Regular(content)) == SendAll(link, clock, frames);
    assert ManifestFrames(content) == Values(frames);
  }

  /**
   * Over a clear link, at most 256 regular images and a manifest of fewer than
   * 65536 frames go out as every image in the given order under ids 0, 1, 2, ...
   * followed by the manifest frames.
   */
  lemma SendRunClear(link: Link, clock: nat, images: seq<Entry>, encodeName: string -> seq<byte>,
                     answers: Answers, manifest: seq<byte>)
    requires ClearFrom(link, clock) && Sendable(images) && |images| <= 256
    requires TotalPackets(|manifest|) < 0x10000
    ensures var r := SendRun(link, clock, images, encodeName, answers, Some(Regular(manifest)));
            && r.results == AllSent(|images|)
            && r.fault.None?
            && r.onAir == ImageFrames(images, encodeName, 0, |images|) + ManifestFrames(manifest)
  {
    var s := SendImages(SendFileOver(link, encodeName), clock, images, answers, 0, 0);
    SendImagesClear(link, clock, images, encodeName, answers, 0, 0);
    ClearLater(link, clock, s.clock);
    SendManifestClear(link, s.clock, manifest);
  }
}
