/** Compressed assets: libs/androidfw/StreamingZipInflater.cpp inflates piece by piece and seeks by inflating
  * again; the _CompressedAsset of libs/androidfw/Asset.cpp switches between it and a buffer with everything.
  * Either way reads must agree with the uncompressed bytes.
  */
module StreamingAsset {
  import opened Common

  const INPUT_CHUNK_SIZE := 64 * 1024
  const OUTPUT_CHUNK_SIZE := 64 * 1024

  /** One call of zlib's inflate: an error, or so much input used and so much output produced. */
  datatype Step = Fails | Makes(consumed: nat, produced: nat)

  /** What the model does not contain: the compressed data and the library that inflates it.  The k-th call,
    * at output position out, input position inp and with avail bytes of input at hand, inflate makes a step;
    * its output is the next bytes of the uncompressed content.  Reading input at an offset gives some bytes,
    * or fails, and not the same each time: the k-th call is its own.  Inflating everything at once succeeds
    * or not. */
  datatype Source = Source(content: seq<uint8>, compressedSize: nat, step: (nat, nat, nat, nat) -> Step,
                           readAt: (nat, nat) -> Option<nat>, inflatesWhole: bool)

  /** The step as far as the buffers allow; no progress at all is an error of inflate. */
  function Inflate(src: Source, k: nat, out: nat, inp: nat, avail: nat): (s: Step)
    requires out <= |src.content|
    ensures s.Makes? ==> s.consumed <= avail && s.produced <= OUTPUT_CHUNK_SIZE && out + s.produced <= |src.content|
    ensures s.Makes? ==> s.consumed > 0 || s.produced > 0
  {
    var s := src.step(k, out, inp, avail);
    if s.Fails? then Fails
    else
      var consumed := Least(s.consumed, avail);
      var produced := Least(s.produced, Least(OUTPUT_CHUNK_SIZE, |src.content| - out));
      if consumed == 0 && produced == 0 then Fails else Makes(consumed, produced)
  }

  function Least(a: nat, b: nat): nat { if a < b then a else b }

  /** Valid data on a device without errors: input can always be read, and inflate advances while there is
    * output left to make. */
  ghost predicate Reliable(src: Source) {
    && src.inflatesWhole
    && (forall k, at | 0 <= k && 0 <= at < src.compressedSize :: src.readAt(k, at).Some? && src.readAt(k, at).value > 0)
    && (forall k, out, inp, avail | 0 <= k && 0 <= out < |src.content| && 0 <= inp && 0 <= avail
                                 && inp + avail <= src.compressedSize && (avail > 0 || inp == src.compressedSize) ::
          Inflate(src, k, out, inp, avail).Makes?)
  }

  /** Equal stretches stay equal from n elements on. */
  lemma Advance(a: seq<uint8>, lo: nat, hi: nat, c: seq<uint8>, p: nat, q: nat, n: nat)
    requires lo <= hi <= |a| && p <= q <= |c| && a[lo..hi] == c[p..q] && n <= hi - lo
    ensures a[lo..lo + n] == c[p..p + n] && a[lo + n..hi] == c[p + n..q]
  {
    assert a[lo..hi][..n] == a[lo..lo + n] && a[lo..hi][n..] == a[lo + n..hi];
    assert c[p..q][..n] == c[p..p + n] && c[p..q][n..] == c[p + n..q];
  }

  lemma Joins(c: seq<uint8>, p: nat, q: nat, r: nat)
    requires p <= q <= r <= |c|
    ensures c[p..q] + c[q..r] == c[p..r]
  {
  }

  lemma InflateAdvances(src: Source, k: nat, out: nat, inp: nat, avail: nat)
    requires Reliable(src) && out < |src.content| && inp + avail <= src.compressedSize
    requires avail > 0 || inp == src.compressedSize
    ensures Inflate(src, k, out, inp, avail).Makes?
  {
  }

  class StreamingZipInflater {
    const src: Source
    /** Whether the input is mapped, rather than read from a file in chunks. */
    const mapped: bool
    const outBuf: array<uint8>
    var streamNeedsInit: bool
    var outLastDecoded: nat
    var outDeliverable: nat
    var outCurPosition: nat
    var inNextChunkOffset: nat
    var availIn: nat
    /** How much output the library has made. */
    var made: nat
    /** How many calls to the device and the library there have been. */
    var calls: nat

    ghost predicate Valid()
      reads this, outBuf
    {
      && outBuf.Length == OUTPUT_CHUNK_SIZE
      && outDeliverable <= outLastDecoded <= OUTPUT_CHUNK_SIZE
      && made == outCurPosition + (outLastDecoded - outDeliverable) <= |src.content|
      && outBuf[outDeliverable..outLastDecoded] == src.content[outCurPosition..made]
      && inNextChunkOffset <= src.compressedSize && availIn <= src.compressedSize
      && (!mapped ==> availIn <= inNextChunkOffset)
      && (streamNeedsInit ==> outCurPosition == 0 == made)
    }

    constructor (source: Source, isMapped: bool)
      ensures Valid() && fresh(outBuf) && src == source && mapped == isMapped && outCurPosition == 0
    {
      src, mapped := source, isMapped;
      outBuf := new uint8[OUTPUT_CHUNK_SIZE];
      streamNeedsInit, outLastDecoded, outDeliverable, outCurPosition, inNextChunkOffset, made := true, 0, 0, 0, 0, 0;
      availIn, calls := if isMapped then source.compressedSize else 0, 0;
    }

    /** How much input has been used. */
    function Used(): int
      reads this
    {
      if mapped then src.compressedSize - availIn else inNextChunkOffset - availIn
    }

    /** initInflateState: back to the start. */
    method InitInflateState()
      requires outBuf.Length == OUTPUT_CHUNK_SIZE
      modifies this
      ensures Valid() && outCurPosition == 0
    {
      streamNeedsInit, outLastDecoded, outDeliverable, outCurPosition, inNextChunkOffset, made := true, 0, 0, 0, 0, 0;
      availIn := if mapped then src.compressedSize else 0;
    }

    /** The next chunk of input, when there is more. */
    method ReadNextChunk() returns (ok: bool)
      requires Valid() && !mapped && availIn == 0
      modifies `inNextChunkOffset, `availIn, `calls
      ensures Valid() && Used() == old(Used())
      ensures Reliable(src) ==> ok && (availIn > 0 || Used() == src.compressedSize)
    {
      ok := true;
      if inNextChunkOffset < src.compressedSize {
        var toRead := Least(INPUT_CHUNK_SIZE, src.compressedSize - inNextChunkOffset);
        var didRead := src.readAt(calls, inNextChunkOffset);
        calls := calls + 1;
        if didRead.None? {
          return false;
        }
        var n := Least(didRead.value, toRead);
        inNextChunkOffset := inNextChunkOffset + n;
        availIn := n;
      }
    }

    /** The library's output arrives in the buffer. */
    method Produce(n: nat)
      requires outBuf.Length == OUTPUT_CHUNK_SIZE && n <= OUTPUT_CHUNK_SIZE && made + n <= |src.content|
      modifies outBuf
      ensures outBuf[..n] == src.content[made..made + n]
    {
      for i := 0 to n
        invariant outBuf[..i] == src.content[made..made + i]
      {
        outBuf[i] := src.content[made + i];
      }
    }

    /** Makes more output in the emptied buffer, after getting more input if there is none at hand. */
    method Refill() returns (ok: bool)
      requires Valid() && outDeliverable == outLastDecoded && outCurPosition < |src.content|
      modifies this, outBuf
      ensures Valid() && (ok ==> outCurPosition == old(outCurPosition))
      ensures ok ==> outDeliverable < outLastDecoded || Used() > old(Used())
      ensures ok ==> Used() >= old(Used())
      ensures !ok ==> outCurPosition == 0
      ensures Reliable(src) ==> ok
    {
      hide Reliable;
      if availIn == 0 && !mapped {
        ok := ReadNextChunk();
        if !ok {
          if !streamNeedsInit {
            InitInflateState();
          }
          return;
        }
      }
      ok := InflateStep();
    }

    /** One call of inflate, into the emptied output buffer. */
    method InflateStep() returns (ok: bool)
      requires Valid() && outDeliverable == outLastDecoded && outCurPosition < |src.content|
      requires Reliable(src) ==> availIn > 0 || Used() == src.compressedSize
      modifies this, outBuf
      ensures Valid() && (ok ==> outCurPosition == old(outCurPosition))
      ensures ok ==> outDeliverable < outLastDecoded || Used() > old(Used())
      ensures ok ==> Used() >= old(Used())
      ensures !ok ==> outCurPosition == 0
      ensures Reliable(src) ==> ok
    {
      hide Reliable, Inflate;
      if Reliable(src) { InflateAdvances(src, calls, made, Used(), availIn); }
      streamNeedsInit := false;
      var used: nat := Used();
      var step := Inflate(src, calls, made, used, availIn);
      calls := calls + 1;
      if step.Fails? {
        InitInflateState();
        return false;
      }
      Produce(step.produced);
      outDeliverable, outLastDecoded := 0, step.produced;
      made, availIn := made + step.produced, availIn - step.consumed;
      return true;
    }

    /** Hands out bytes that are already inflated. */
    method Deliver(n: nat) returns (bytes: seq<uint8>)
      requires Valid() && n <= outLastDecoded - outDeliverable
      modifies `outDeliverable, `outCurPosition
      ensures Valid() && outCurPosition == old(outCurPosition) + n && Used() == old(Used())
      ensures outLastDecoded - outDeliverable == old(outLastDecoded - outDeliverable) - n
      ensures bytes == src.content[old(outCurPosition)..outCurPosition]
    {
      bytes := outBuf[outDeliverable..outDeliverable + n];
      Advance(outBuf[..], outDeliverable, outLastDecoded, src.content, outCurPosition, made, n);
      outDeliverable := outDeliverable + n;
      outCurPosition := outCurPosition + n;
    }

    /** The next bytes of the content, as many as asked for and left; or an error, which starts over. */
    method Read(count: nat) returns (ok: bool, data: seq<uint8>)
      requires Valid()
      modifies this, outBuf
      ensures Valid() && (Reliable(src) ==> ok)
      ensures ok ==> var n := Least(count, |src.content| - old(outCurPosition));
                     data == src.content[old(outCurPosition)..old(outCurPosition) + n] && outCurPosition == old(outCurPosition) + n
      ensures !ok ==> outCurPosition == 0
    {
      hide Reliable;
      data := [];
      ghost var start := outCurPosition;
      var toRead := Least(count, |src.content| - outCurPosition);
      ghost var end := start + toRead;
      while toRead > 0
        invariant Valid() && start <= outCurPosition && 0 <= toRead && outCurPosition + toRead == end <= |src.content|
        invariant data == src.content[start..outCurPosition]
        decreases toRead, src.compressedSize - Used(), if outDeliverable == outLastDecoded then 1 else 0
      {
        var deliverable := Least(toRead, outLastDecoded - outDeliverable);
        if deliverable > 0 {
          Joins(src.content, start, outCurPosition, outCurPosition + deliverable);
          var bytes := Deliver(deliverable);
          data := data + bytes;
          toRead := toRead - deliverable;
        }
        if toRead > 0 {
          ok := Refill();
          if !ok {
            return false, [];
          }
        }
      }
      ok := true;
    }

    /** Moves to a position, going back to the start first if it lies behind.  An error on the way is not
      * reported: the position then is not reached. */
    method SeekAbsolute(position: nat) returns (r: nat, ghost reached: bool)
      requires Valid() && position <= |src.content|
      modifies this, outBuf
      ensures Valid() && r == position && (Reliable(src) ==> reached)
      ensures reached ==> outCurPosition == position
    {
      hide Reliable;
      var ok := true;
      if position < outCurPosition {
        InitInflateState();
        var done, _ := Read(position);
        ok := done;
      } else if position > outCurPosition {
        var done, _ := Read(position - outCurPosition);
        ok := done;
      }
      return position, ok;
    }
  }

  datatype Whence = SeekSet | SeekCur | SeekEnd

  /** Where a seek leads, or -1 when that is outside the data. */
  function HandleSeek(offset: int, whence: Whence, current: int, max: nat): (r: int)
    ensures -1 <= r <= max
  {
    var to := match whence case SeekSet => offset case SeekCur => current + offset case SeekEnd => max + offset;
    if to < 0 || to > max then -1 else to
  }

  class CompressedAsset {
    const src: Source
    const mapped: bool
    var zipInflater: StreamingZipInflater?
    var buf: array?<uint8>
    var offset: int
    /** Set when an error has put the inflater out of step with the offset. */
    ghost var lost: bool

    ghost function Repr(): set<object>
      reads this
    {
      {this} + (if zipInflater != null then {zipInflater, zipInflater.outBuf} else {})
      + (if buf != null then {buf} else {})
    }

    ghost predicate Valid()
      reads this, Repr()
    {
      && (buf != null ==> zipInflater == null && buf[..] == src.content)
      && (zipInflater != null ==> zipInflater.src == src && zipInflater.Valid() && (!lost ==> zipInflater.outCurPosition == offset))
      && (!lost ==> 0 <= offset <= |src.content|)
    }

    /** openChunk: only big assets are streamed. */
    constructor (source: Source, isMapped: bool)
      ensures Valid() && !lost && fresh(Repr()) && src == source && offset == 0
      ensures zipInflater != null <==> |source.content| > 65536
    {
      src, mapped, buf, offset, lost, zipInflater := source, isMapped, null, 0, false, null;
      new;
      if |source.content| > OUTPUT_CHUNK_SIZE {
        zipInflater := new StreamingZipInflater(source, isMapped);
      }
    }

    /** The bytes at the offset, which moves past them. */
    method Read(count: nat) returns (ok: bool, data: seq<uint8>)
      requires Valid() && !lost
      modifies Repr()
      ensures Valid() && fresh(Repr() - old(Repr())) && (Reliable(src) ==> ok)
      ensures ok ==> var n := Least(count, |src.content| - old(offset));
                     data == src.content[old(offset)..old(offset) + n] && offset == old(offset) + n && !lost
      ensures !ok ==> lost || offset == old(offset)
    {
      hide Reliable;
      if zipInflater != null {
        ok, data := zipInflater.Read(count);
        if !ok {
          offset, lost := offset - 1, true;
          return;
        }
      } else {
        ok, data := FromBuffer(count);
        if !ok {
          return;
        }
      }
      offset := offset + |data|;
    }

    /** The bytes at the offset out of the buffer, which is filled first if there is none. */
    method FromBuffer(count: nat) returns (ok: bool, data: seq<uint8>)
      requires Valid() && !lost && zipInflater == null
      modifies this`buf, this`zipInflater, this`lost
      ensures Valid() && fresh(Repr() - old(Repr())) && (Reliable(src) ==> ok)
      ensures zipInflater == null && (ok ==> !lost)
      ensures ok ==> data == src.content[offset..offset + Least(count, |src.content| - offset)]
    {
      hide Reliable;
      if Reliable(src) { WholeInflates(src); }
      var b := GetBuffer();
      if b == null {
        return false, [];
      }
      var n := Least(count, |src.content| - offset);
      ok, data := true, b[offset..offset + n];
      assert data == b[..][offset..offset + n];
    }

    /** The new offset, or -1 and nothing changes. */
    method Seek(delta: int, whence: Whence) returns (r: int)
      requires Valid() && !lost
      modifies Repr()
      ensures Valid() && fresh(Repr() - old(Repr())) && (Reliable(src) ==> !lost)
      ensures var to := delta + match whence case SeekSet => 0 case SeekCur => old(offset) case SeekEnd => |src.content|;
              r == if 0 <= to <= |src.content| then to else -1
      ensures offset == if r == -1 then old(offset) else r
    {
      hide Reliable;
      r := HandleSeek(delta, whence, offset, |src.content|);
      if r == -1 {
        return;
      }
      if zipInflater != null {
        var _, reached := zipInflater.SeekAbsolute(r);
        lost := !reached;
      }
      offset := r;
    }

    /** All of the content in memory, made once; from then on the inflater is not needed. */
    method GetBuffer() returns (b: array?<uint8>)
      requires Valid() && !lost
      modifies this`buf, this`zipInflater, this`lost
      ensures Valid() && fresh(Repr() - old(Repr()))
      ensures b == buf && (b != null ==> b[..] == src.content && zipInflater == null && !lost)
      ensures b != null <==> old(buf) != null || src.inflatesWhole
      ensures old(zipInflater) == null ==> zipInflater == null
    {
      if buf != null {
        return buf;
      }
      if !src.inflatesWhole {
        // The file position has moved under the inflater.
        lost := zipInflater != null && !mapped;
        return null;
      }
      var whole := InflateToBuffer();
      zipInflater := null;
      buf := whole;
      return buf;
    }

    /** Inflating everything at once, where that succeeds. */
    method InflateToBuffer() returns (whole: array<uint8>)
      ensures fresh(whole) && whole[..] == src.content
    {
      whole := new uint8[|src.content|];
      for i := 0 to |src.content|
        invariant whole[..i] == src.content[..i]
      {
        whole[i] := src.content[i];
      }
    }
  }

  // ----- any sequence of operations -----

  datatype Op = Read(count: nat) | Seek(offset: int, whence: Whence) | GetBuffer

  datatype Answer = Bytes(bytes: seq<uint8>) | Position(position: int)

  /** What each operation answers on a plain array with a position, and where it leaves the position. */
  function Reply(content: seq<uint8>, at: nat, op: Op): (r: (Answer, nat))
    requires at <= |content|
    ensures r.1 <= |content|
  {
    match op
    case Read(count) =>
      var n := Least(count, |content| - at);
      (Bytes(content[at..at + n]), at + n)
    case Seek(offset, whence) =>
      var to := HandleSeek(offset, whence, at, |content|);
      (Position(to), if to == -1 then at else to)
    case GetBuffer => (Bytes(content), at)
  }

  function PositionAfter(content: seq<uint8>, ops: seq<Op>): (at: nat)
    ensures at <= |content|
  {
    if ops == [] then 0 else Reply(content, PositionAfter(content, ops[..|ops| - 1]), ops[|ops| - 1]).1
  }

  /** The answers to a sequence of operations. */
  function Replies(content: seq<uint8>, ops: seq<Op>): seq<Answer> {
    if ops == [] then []
    else
      var earlier := ops[..|ops| - 1];
      Replies(content, earlier) + [Reply(content, PositionAfter(content, earlier), ops[|ops| - 1]).0]
  }

  /** An asset answers every sequence of operations like the plain array - streaming or not, mapped or not,
    * whenever getBuffer replaces the inflater - as long as nothing fails. */
  method Run(src: Source, mapped: bool, ops: seq<Op>) returns (answers: seq<Answer>)
    requires Reliable(src)
    ensures answers == Replies(src.content, ops)
    ensures |answers| == |ops| && forall i | 0 <= i < |ops| ::
              AnswersOp(src.content, PositionAfter(src.content, ops[..i]), ops[i], answers[i], PositionAfter(src.content, ops[..i + 1]))
  {
    hide Reliable, Reply, Replies, PositionAfter;
    RepliesAnswer(src.content, ops);
    NoReplies(src.content);
    var asset := new CompressedAsset(src, mapped);
    answers := [];
    for i := 0 to |ops|
      invariant asset.Valid() && !asset.lost && asset.src == src && fresh(asset.Repr())
      invariant asset.offset == PositionAfter(src.content, ops[..i]) && answers == Replies(src.content, ops[..i])
    {
      assert ops[..i + 1] == ops[..i] + [ops[i]];
      OneMoreReply(src.content, ops[..i], ops[i]);
      var answer := Perform(asset, ops[i]);
      answers := answers + [answer];
    }
    assert ops[..|ops|] == ops;
  }

  /** What an operation at a position answers, and the position it leads to. */
  predicate AnswersOp(content: seq<uint8>, at: nat, op: Op, answer: Answer, after: nat) {
    match op
    case Read(count) =>
      && at <= after <= |content| && (after == at + count || (after == |content| && after < at + count))
      && answer == Bytes(content[at..after])
    case Seek(offset, whence) =>
      var to := offset + match whence case SeekSet => 0 case SeekCur => at case SeekEnd => |content|;
      if 0 <= to <= |content| then answer == Position(to) && after == to else answer == Position(-1) && after == at
    case GetBuffer => answer == Bytes(content) && after == at
  }

  lemma ReplyAnswers(content: seq<uint8>, at: nat, op: Op)
    requires at <= |content|
    ensures AnswersOp(content, at, op, Reply(content, at, op).0, Reply(content, at, op).1)
  {
  }

  lemma NoReplies(content: seq<uint8>)
    ensures PositionAfter(content, []) == 0 && Replies(content, []) == []
  {
  }

  lemma OneMoreReply(content: seq<uint8>, ops: seq<Op>, op: Op)
    ensures var reply := Reply(content, PositionAfter(content, ops), op);
            && PositionAfter(content, ops + [op]) == reply.1
            && Replies(content, ops + [op]) == Replies(content, ops) + [reply.0]
  {
    hide Reply;
    assert (ops + [op])[..|ops|] == ops;
  }

  lemma {:induction false} RepliesAnswer(content: seq<uint8>, ops: seq<Op>)
    ensures |Replies(content, ops)| == |ops| && forall i | 0 <= i < |ops| ::
              AnswersOp(content, PositionAfter(content, ops[..i]), ops[i], Replies(content, ops)[i],
                        PositionAfter(content, ops[..i + 1]))
  {
    hide Reply, AnswersOp, PositionAfter, Replies;
    NoReplies(content);
    if ops != [] {
      var n := |ops| - 1;
      var earlier := ops[..n];
      RepliesAnswer(content, earlier);
      assert earlier + [ops[n]] == ops;
      OneMoreReply(content, earlier, ops[n]);
      ReplyAnswers(content, PositionAfter(content, earlier), ops[n]);
      forall i | 0 <= i < |ops|
        ensures AnswersOp(content, PositionAfter(content, ops[..i]), ops[i], Replies(content, ops)[i],
                          PositionAfter(content, ops[..i + 1]))
      {
        if i < n {
          assert earlier[..i] == ops[..i] && earlier[..i + 1] == ops[..i + 1];
        } else {
          assert ops[..i + 1] == ops;
        }
      }
    }
  }

  lemma WholeInflates(src: Source)
    requires Reliable(src)
    ensures src.inflatesWhole
  {
  }

  method Perform(asset: CompressedAsset, op: Op) returns (answer: Answer)
    requires asset.Valid() && !asset.lost && Reliable(asset.src)
    modifies asset.Repr()
    ensures asset.Valid() && !asset.lost && fresh(asset.Repr() - old(asset.Repr()))
    ensures 0 <= old(asset.offset) <= |asset.src.content|
    ensures (answer, asset.offset) == Reply(asset.src.content, old(asset.offset), op)
  {
    hide Reliable;
    WholeInflates(asset.src);
    match op {
      case Read(count) =>
        var _, data := asset.Read(count);
        answer := Bytes(data);
      case Seek(offset, whence) =>
        var to := asset.Seek(offset, whence);
        answer := Position(to);
      case GetBuffer =>
        var b := asset.GetBuffer();
        answer := Bytes(b[..]);
    }
  }
}
