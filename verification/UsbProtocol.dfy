/**
 The USB frame protocol (micronuts-app/src/protocol.rs): `[command][length, big-endian u16][payload]`,
 the encoders, and the byte-at-a-time decoder.

 The decoder is proved against a parser that sees the whole buffer at once; what a session of many
 chunks delivers is then a matter of that parser alone.
 */
module UsbProtocol {
  import opened Octets
  import opened Results

  const MAX_PAYLOAD_SIZE := 1024

  datatype Command =
    | ImportToken | GetTokenInfo | GetBlinded | SendSignatures | GetProofs
    | ScannerStatus | ScannerTrigger | ScannerData | ScannerHeal | ScannerFactoryHeal
    | NfcPoll | NfcData | NfcHeal

  function FromByte(b: octet): Option<Command>
  {
    match b
    case 0x01 => Some(ImportToken)
    case 0x02 => Some(GetTokenInfo)
    case 0x03 => Some(GetBlinded)
    case 0x04 => Some(SendSignatures)
    case 0x05 => Some(GetProofs)
    case 0x10 => Some(ScannerStatus)
    case 0x11 => Some(ScannerTrigger)
    case 0x12 => Some(ScannerData)
    case 0x13 => Some(ScannerHeal)
    case 0x14 => Some(ScannerFactoryHeal)
    case 0x15 => Some(NfcPoll)
    case 0x16 => Some(NfcData)
    case 0x17 => Some(NfcHeal)
    case _ => None
  }

  // The enum's `repr(u8)` discriminant.
  function ToByte(c: Command): (b: octet)
    ensures FromByte(b) == Some(c)
  {
    match c
    case ImportToken => 0x01
    case GetTokenInfo => 0x02
    case GetBlinded => 0x03
    case SendSignatures => 0x04
    case GetProofs => 0x05
    case ScannerStatus => 0x10
    case ScannerTrigger => 0x11
    case ScannerData => 0x12
    case ScannerHeal => 0x13
    case ScannerFactoryHeal => 0x14
    case NfcPoll => 0x15
    case NfcData => 0x16
    case NfcHeal => 0x17
  }

  /** The command bytes in full. */
  lemma CommandBytes(b: octet)
    ensures FromByte(b).Some? <==> 0x01 <= b <= 0x05 || 0x10 <= b <= 0x17
    ensures ToByte(ImportToken) == 0x01 && ToByte(GetTokenInfo) == 0x02 && ToByte(GetBlinded) == 0x03
    ensures ToByte(SendSignatures) == 0x04 && ToByte(GetProofs) == 0x05
    ensures ToByte(ScannerStatus) == 0x10 && ToByte(ScannerTrigger) == 0x11 && ToByte(ScannerData) == 0x12
    ensures ToByte(ScannerHeal) == 0x13 && ToByte(ScannerFactoryHeal) == 0x14
    ensures ToByte(NfcPoll) == 0x15 && ToByte(NfcData) == 0x16 && ToByte(NfcHeal) == 0x17
  {
  }

  type Payload = p: seq<octet> | |p| <= MAX_PAYLOAD_SIZE witness []

  datatype Frame = Frame(command: Command, payload: Payload)

  // A head byte, the length, the payload: the form of commands and of responses.
  function Wire(head: octet, payload: Payload): (w: seq<octet>)
    ensures |w| == 3 + |payload|
  {
    [head, |payload| / 256, |payload| % 256] + payload
  }

  /** `Frame::encode` and `Response::encode`: nothing is written to a buffer that is too small. */
  method Encode(head: octet, payload: Payload, buf: array<octet>) returns (n: nat)
    modifies buf
    ensures buf.Length < 3 + |payload| ==> n == 0 && buf[..] == old(buf[..])
    ensures buf.Length >= 3 + |payload| ==>
            n == 3 + |payload| && buf[..n] == Wire(head, payload) && buf[n..] == old(buf[n..])
  {
    var total := 3 + |payload|;
    if buf.Length < total {
      return 0;
    }
    buf[0], buf[1], buf[2] := head, |payload| / 256, |payload| % 256;
    forall i | 0 <= i < |payload| {
      buf[3 + i] := payload[i];
    }
    n := total;
  }

  // ---- The whole-buffer parser ----

  // Either the first valid frame and the bytes after it, or the incomplete bytes at the end.
  datatype Parsed = Found(frame: Frame, rest: seq<octet>) | Partial(pending: seq<octet>)

  function Length(buf: seq<octet>): nat
    requires |buf| >= 3
  {
    256 * (buf[1] as int) + buf[2] as int
  }

  // An oversized header is skipped alone; an unknown command is skipped with its payload.
  function Parse(buf: seq<octet>): Parsed
    decreases |buf|
  {
    if |buf| < 3 then Partial(buf)
    else if Length(buf) > MAX_PAYLOAD_SIZE then Parse(buf[3..])
    else if |buf| < 3 + Length(buf) then Partial(buf)
    else
      match FromByte(buf[0])
      case None => Parse(buf[3 + Length(buf)..])
      case Some(c) => Found(Frame(c, buf[3..3 + Length(buf)]), buf[3 + Length(buf)..])
  }

  /** A frame in literal bytes: the head, the length with its high byte first, the payload. */
  lemma WireLayout(head: octet, payload: Payload)
    ensures var w := Wire(head, payload);
            && |w| == 3 + |payload| && w[0] == head && w[3..] == payload
            && 256 * (w[1] as int) + w[2] as int == |payload| <= 1024
  {
  }

  /** What is skipped and what is taken, in literal bytes: a header that announces more than 1024 bytes goes alone, a
      complete frame of an unknown command goes whole, a known one is taken, and anything shorter waits. */
  lemma ParseRules(buf: seq<octet>)
    ensures |buf| < 3 ==> Parse(buf) == Partial(buf)
    ensures |buf| >= 3 ==>
              var n := 256 * (buf[1] as int) + buf[2] as int;
              && (n > 1024 ==> Parse(buf) == Parse(buf[3..]))
              && (n <= 1024 && |buf| < 3 + n ==> Parse(buf) == Partial(buf))
              && (n <= 1024 && |buf| >= 3 + n && !(0x01 <= buf[0] <= 0x05 || 0x10 <= buf[0] <= 0x17) ==>
                    Parse(buf) == Parse(buf[3 + n..]))
              && (n <= 1024 && |buf| >= 3 + n && (0x01 <= buf[0] <= 0x05 || 0x10 <= buf[0] <= 0x17) ==>
                    && Parse(buf).Found? && ToByte(Parse(buf).frame.command) == buf[0]
                    && Parse(buf).frame.payload == buf[3..3 + n] && Parse(buf).rest == buf[3 + n..])
  {
    if |buf| >= 3 {
      CommandBytes(buf[0]);
    }
  }

  // The bytes of a frame still incomplete.
  predicate Incomplete(p: seq<octet>)
  {
    |p| < 3 || (Length(p) <= MAX_PAYLOAD_SIZE && |p| < 3 + Length(p))
  }

  // What the parser says of bytes that hold at most one frame.
  lemma ParseSteps(buf: seq<octet>)
    ensures |buf| < 3 ==> Parse(buf) == Partial(buf)
    ensures |buf| == 3 && Length(buf) > MAX_PAYLOAD_SIZE ==> Parse(buf) == Partial([])
    ensures |buf| >= 3 && Length(buf) <= MAX_PAYLOAD_SIZE && |buf| < 3 + Length(buf) ==> Parse(buf) == Partial(buf)
    ensures |buf| >= 3 && Length(buf) <= MAX_PAYLOAD_SIZE && |buf| == 3 + Length(buf) ==>
              Parse(buf) == if FromByte(buf[0]).Some? then Found(Frame(FromByte(buf[0]).value, buf[3..]), [])
                            else Partial([])
  {
    hide FromByte;
    assert Parse([]) == Partial([]);
    assert buf[|buf|..] == [];
    assert |buf| >= 3 ==> buf[3..|buf|] == buf[3..];
  }

  // ---- The decoder ----

  datatype DecodeState = Idle | LenHigh | LenLow | InPayload

  class FrameDecoder {
    var state: DecodeState
    var commandByte: octet
    var length: nat
    var payloadIdx: nat
    var payload: array<octet>

    ghost predicate Valid()
      reads this
    {
      && payload.Length == MAX_PAYLOAD_SIZE
      && (state == LenLow ==> length % 256 == 0 && length < 0x1_0000)
      && (state == InPayload ==> payloadIdx < length <= MAX_PAYLOAD_SIZE)
    }

    // The bytes the decoder has taken in since the last frame boundary.
    ghost function Pending(): seq<octet>
      requires Valid()
      reads this, payload
    {
      if state == Idle then []
      else if state == LenHigh then [commandByte]
      else
        var hi: octet, lo: octet := length / 256, length % 256;
        if state == LenLow then [commandByte, hi] else [commandByte, hi, lo] + payload[..payloadIdx]
    }

    constructor ()
      ensures Valid() && fresh(payload) && Pending() == []
    {
      state, commandByte, length, payloadIdx := Idle, 0, 0, 0;
      payload := new octet[MAX_PAYLOAD_SIZE];
    }

    method Reset()
      requires payload.Length == MAX_PAYLOAD_SIZE
      modifies this`state, this`commandByte, this`length, this`payloadIdx
      ensures Valid() && Pending() == []
    {
      state, commandByte, length, payloadIdx := Idle, 0, 0, 0;
    }

    /** Takes in one byte; says whether the loop returns, and with which frame. */
    method Take(byte: octet) returns (r: Option<Frame>)
      requires Valid()
      modifies this`state, this`commandByte, this`length, this`payloadIdx, payload
      ensures Valid() && Incomplete(Pending())
      ensures r.Some? ==> Parse(old(Pending()) + [byte]) == Found(r.value, []) && Pending() == []
      ensures r.None? ==> Parse(old(Pending()) + [byte]) == Partial(Pending())
    {
      hide Parse, FromByte;
      ghost var p := Pending();
      ghost var buf := p + [byte];
      ParseSteps(buf);
      r := None;
      match state {
        case Idle =>
          commandByte := byte;
          state := LenHigh;
        case LenHigh =>
          length := byte * 256;
          state := LenLow;
        case LenLow =>
          length := length + byte;
          assert Length(buf) == length;
          if length > MAX_PAYLOAD_SIZE {
            Reset();
            return;
          }
          if length == 0 {
            var cmdByte := commandByte;
            Reset();
            match FromByte(cmdByte)
            case None => return;
            case Some(cmd) => return Some(Frame(cmd, []));
          }
          payloadIdx := 0;
          state := InPayload;
          assert Pending() == buf;
        case InPayload =>
          payload[payloadIdx] := byte;
          payloadIdx := payloadIdx + 1;
          assert [commandByte, length / 256, length % 256] + payload[..payloadIdx] == buf;
          assert Length(buf) == length;
          if payloadIdx >= length {
            var cmdByte, len := commandByte, payloadIdx;
            Reset();
            assert buf[3..] == payload[..len];
            match FromByte(cmdByte)
            case None => return;
            case Some(cmd) => return Some(Frame(cmd, payload[..len]));
          }
      }
    }

    /** `decode`: from any state and for any chunk, the first valid frame of the pending bytes
        followed by the chunk, or the new pending bytes. A frame drops the rest of its chunk. */
    method Decode(data: seq<octet>) returns (r: Option<Frame>)
      requires Valid()
      modifies this`state, this`commandByte, this`length, this`payloadIdx, payload
      ensures Valid()
      ensures match Parse(old(Pending()) + data)
              case Found(f, _) => r == Some(f) && Pending() == []
              case Partial(p) => r == None && Pending() == p
    {
      ghost var whole := Pending() + data;
      var i := 0;
      assert data[0..] == data;
      while i < |data|
        invariant 0 <= i <= |data|
        invariant Valid()
        invariant Parse(whole) == Parse(Pending() + data[i..])
      {
        ghost var before := Pending();
        assert data[i..] == [data[i]] + data[i + 1..];
        r := Take(data[i]);
        TakeContinues(before, data[i], data[i + 1..]);
        if r.Some? {
          return;
        }
        i := i + 1;
      }
      assert Pending() + data[i..] == Pending();
      PendingIsPartial();
      r := None;
    }

    lemma PendingIsPartial()
      requires Valid()
      ensures Parse(Pending()) == Partial(Pending())
    {
      var p := Pending();
      if state == InPayload {
        assert Length(p) == length;
      }
    }
  }

  // ---- Chunking ----

  /** Parsing may stop and resume anywhere: only the pending bytes matter, and bytes after a frame
      do not change it. */
  lemma {:induction false} ParseContinues(a: seq<octet>, b: seq<octet>)
    ensures match Parse(a)
            case Found(f, rest) => Parse(a + b) == Found(f, rest + b)
            case Partial(p) => Parse(a + b) == Parse(p + b) && Incomplete(p)
    decreases |a|
  {
    if |a| >= 3 {
      var n := if Length(a) > MAX_PAYLOAD_SIZE then 3 else 3 + Length(a);
      assert Length(a + b) == Length(a);
      if n <= |a| {
        assert (a + b)[n..] == a[n..] + b;
        assert (a + b)[3..n] == a[3..n];
        ParseContinues(a[n..], b);
      }
    }
  }

  // One byte more, then the rest of the chunk.
  lemma {:induction false} TakeContinues(p: seq<octet>, b: octet, tail: seq<octet>)
    ensures match Parse(p + [b])
            case Found(f, rest) => Parse(p + ([b] + tail)) == Found(f, rest + tail)
            case Partial(q) => Parse(p + ([b] + tail)) == Parse(q + tail)
  {
    assert p + ([b] + tail) == (p + [b]) + tail;
    ParseContinues(p + [b], tail);
  }

  lemma WireLength(head: octet, payload: Payload, rest: seq<octet>)
    ensures var w := Wire(head, payload) + rest;
            Length(w) == |payload| && w[0] == head && w[3..3 + |payload|] == payload && w[3 + |payload|..] == rest
  {
  }

  /** An encoded frame is read back, whatever follows it. */
  lemma WireRoundTrip(f: Frame, rest: seq<octet>)
    ensures Parse(Wire(ToByte(f.command), f.payload) + rest) == Found(f, rest)
  {
    WireLength(ToByte(f.command), f.payload, rest);
  }

  // A session: the frames that successive calls of `decode` return, and the bytes left pending.
  function Session(pending: seq<octet>, chunks: seq<seq<octet>>): (seq<Frame>, seq<octet>)
    decreases |chunks|
  {
    if chunks == [] then ([], pending)
    else
      match Parse(pending + chunks[0])
      case Partial(p) => Session(p, chunks[1..])
      case Found(f, _) =>
        var (fs, p) := Session([], chunks[1..]);
        ([f] + fs, p)
  }

  // Every valid frame of a buffer, and the incomplete bytes at the end.
  function AllFrames(buf: seq<octet>): (seq<Frame>, seq<octet>)
    decreases |buf|
  {
    FoundShrinks(buf);
    match Parse(buf)
    case Partial(p) => ([], p)
    case Found(f, rest) =>
      var (fs, p) := AllFrames(rest);
      ([f] + fs, p)
  }

  lemma {:induction false} FoundShrinks(buf: seq<octet>)
    ensures Parse(buf).Found? ==> |Parse(buf).rest| < |buf|
    decreases |buf|
  {
    if |buf| >= 3 {
      var n := if Length(buf) > MAX_PAYLOAD_SIZE then 3 else 3 + Length(buf);
      if n <= |buf| {
        FoundShrinks(buf[n..]);
      }
    }
  }

  function Flatten(chunks: seq<seq<octet>>): seq<octet>
  {
    if chunks == [] then [] else chunks[0] + Flatten(chunks[1..])
  }

  // The chunks without what the decoder drops: after a frame, the rest of its chunk.
  function Kept(pending: seq<octet>, chunks: seq<seq<octet>>): seq<seq<octet>>
    requires Incomplete(pending)
    decreases |chunks|
  {
    if chunks == [] then []
    else
      ParseContinues(pending + chunks[0], []);
      match Parse(pending + chunks[0])
      case Partial(p) => [chunks[0]] + Kept(p, chunks[1..])
      case Found(_, rest) =>
        FrameEndsInChunk(pending, chunks[0]);
        [chunks[0][..|chunks[0]| - |rest|]] + Kept([], chunks[1..])
  }

  lemma {:induction false} FoundCut(a: seq<octet>)
    requires Parse(a).Found?
    ensures var rest := Parse(a).rest;
            |rest| <= |a| && Parse(a[..|a| - |rest|]) == Found(Parse(a).frame, [])
    decreases |a|
  {
    var n := if Length(a) > MAX_PAYLOAD_SIZE then 3 else 3 + Length(a);
    var rest := Parse(a).rest;
    if Length(a) > MAX_PAYLOAD_SIZE || FromByte(a[0]).None? {
      FoundCut(a[n..]);
      var cut := a[..|a| - |rest|];
      assert |rest| <= |a| - n;
      assert cut[n..] == a[n..][..|a[n..]| - |rest|];
    }
  }

  lemma FrameEndsInChunk(pending: seq<octet>, chunk: seq<octet>)
    requires Incomplete(pending) && Parse(pending + chunk).Found?
    ensures |Parse(pending + chunk).rest| <= |chunk|
  {
    FoundCut(pending + chunk);
  }

  /** However the stream was cut, the session delivers exactly the frames of the bytes it kept. */
  lemma {:induction false} SessionDeliversKept(pending: seq<octet>, chunks: seq<seq<octet>>)
    requires Incomplete(pending)
    ensures Session(pending, chunks) == AllFrames(pending + Flatten(Kept(pending, chunks)))
    decreases |chunks|
  {
    if chunks == [] {
      assert pending + Flatten(chunks) == pending;
    } else {
      var chunk, more := chunks[0], chunks[1..];
      ParseContinues(pending + chunk, []);
      match Parse(pending + chunk)
      case Partial(p) =>
        SessionDeliversKept(p, more);
        KeptPartial(pending, chunk, p, Kept(p, more));
      case Found(f, rest) =>
        SessionDeliversKept([], more);
        FrameEndsInChunk(pending, chunk);
        KeptFound(pending, chunk, f, rest, Kept([], more));
    }
  }

  lemma FlattenCons(c: seq<octet>, cs: seq<seq<octet>>)
    ensures Flatten([c] + cs) == c + Flatten(cs)
  {
    assert ([c] + cs)[1..] == cs;
  }

  lemma KeptPartial(pending: seq<octet>, chunk: seq<octet>, p: seq<octet>, kept: seq<seq<octet>>)
    requires Parse(pending + chunk) == Partial(p)
    ensures AllFrames(pending + Flatten([chunk] + kept)) == AllFrames(p + Flatten(kept))
  {
    FlattenCons(chunk, kept);
    var tail := Flatten(kept);
    assert pending + (chunk + tail) == (pending + chunk) + tail;
    ParseContinues(pending + chunk, tail);
    ResumeAll(p, tail, (pending + chunk) + tail);
  }

  lemma KeptFound(pending: seq<octet>, chunk: seq<octet>, f: Frame, rest: seq<octet>, kept: seq<seq<octet>>)
    requires Parse(pending + chunk) == Found(f, rest) && |rest| <= |chunk|
    ensures var (fs, p) := AllFrames([] + Flatten(kept));
            AllFrames(pending + Flatten([chunk[..|chunk| - |rest|]] + kept)) == ([f] + fs, p)
  {
    var cut, tail := chunk[..|chunk| - |rest|], Flatten(kept);
    FlattenCons(cut, kept);
    FoundCut(pending + chunk);
    assert (pending + chunk)[..|pending + chunk| - |rest|] == pending + cut;
    assert pending + (cut + tail) == (pending + cut) + tail;
    ParseContinues(pending + cut, tail);
  }

  // ---- When nothing is lost ----

  // What one call leaves pending.
  function After(pending: seq<octet>, chunk: seq<octet>): (p: seq<octet>)
    ensures Incomplete(p)
  {
    ParseContinues(pending + chunk, []);
    match Parse(pending + chunk)
    case Partial(p) => p
    case Found(_, _) => []
  }

  // The bytes this call drops hold no frame and leave nothing pending.
  predicate CallLosesNothing(pending: seq<octet>, chunk: seq<octet>)
  {
    var parsed := Parse(pending + chunk);
    parsed.Found? ==> AllFrames(parsed.rest) == ([], [])
  }

  // No call of the session loses anything.
  predicate NothingLost(pending: seq<octet>, chunks: seq<seq<octet>>)
    decreases |chunks|
  {
    chunks == [] || (CallLosesNothing(pending, chunks[0]) && NothingLost(After(pending, chunks[0]), chunks[1..]))
  }

  // Bytes that hold no frame and leave nothing pending might as well not be there.
  lemma SkippedAway(rest: seq<octet>, tail: seq<octet>)
    requires AllFrames(rest) == ([], [])
    ensures AllFrames(rest + tail) == AllFrames(tail)
  {
    assert Parse(rest) == Partial([]);
    ParseContinues(rest, tail);
    assert [] + tail == tail;
    ResumeAll([], tail, rest + tail);
  }

  /** Exactly when one call delivers every frame of its bytes: when what it drops holds no frame and nothing that a
      later chunk could complete. */
  lemma CallDeliversIff(pending: seq<octet>, chunk: seq<octet>)
    ensures Session(pending, [chunk]) == AllFrames(pending + chunk) <==> CallLosesNothing(pending, chunk)
  {
    var none: seq<seq<octet>> := [];
    assert [chunk][1..] == none && forall p :: Session(p, none) == ([], p);
  }

  // A call that loses nothing leaves the question to the rest of the session.
  lemma CallThenRest(pending: seq<octet>, chunk: seq<octet>, more: seq<seq<octet>>)
    requires CallLosesNothing(pending, chunk)
    ensures Session(pending, [chunk] + more) == AllFrames(pending + Flatten([chunk] + more)) <==>
            Session(After(pending, chunk), more) == AllFrames(After(pending, chunk) + Flatten(more))
  {
    var tail, whole := Flatten(more), pending + chunk;
    assert ([chunk] + more)[1..] == more;
    match Parse(whole)
    case Partial(p) =>
      KeptPartial(pending, chunk, p, more);
    case Found(f, rest) =>
      FlattenCons(chunk, more);
      assert pending + (chunk + tail) == whole + tail;
      ParseContinues(whole, tail);
      SkippedAway(rest, tail);
      assert [] + tail == tail;
      FoundThenRest(f, whole + tail, tail);
      assert forall x: seq<Frame>, y: seq<Frame> :: [f] + x == [f] + y ==> ([f] + x)[1..] == x && ([f] + y)[1..] == y;
  }

  lemma FoundThenRest(f: Frame, whole: seq<octet>, tail: seq<octet>)
    requires Parse(whole).Found? && Parse(whole).frame == f && AllFrames(Parse(whole).rest) == AllFrames(tail)
    ensures AllFrames(whole) == ([f] + AllFrames(tail).0, AllFrames(tail).1)
  {
  }

  // After every call of the session, the frames of all bytes so far have been delivered.
  ghost predicate UpToDate(pending: seq<octet>, chunks: seq<seq<octet>>)
  {
    forall k :: 0 <= k <= |chunks| ==> Session(pending, chunks[..k]) == AllFrames(pending + Flatten(chunks[..k]))
  }

  lemma UpToDateStep(pending: seq<octet>, chunks: seq<seq<octet>>)
    requires chunks != [] && Incomplete(pending)
    ensures UpToDate(pending, chunks) <==>
            CallLosesNothing(pending, chunks[0]) && UpToDate(After(pending, chunks[0]), chunks[1..])
  {
    hide Session, AllFrames, CallLosesNothing, After;
    var chunk, more := chunks[0], chunks[1..];
    NothingYet(pending);
    CallDeliversIff(pending, chunk);
    assert chunks[..0] == [] && chunks[..1] == [chunk];
    FlattenCons(chunk, []);
    assert [chunk] + [] == [chunk] && chunk + [] == chunk;
    forall k | 0 <= k <= |more| ensures chunks[..k + 1] == [chunk] + more[..k] {
    }
    if CallLosesNothing(pending, chunk) {
      forall k | 0 <= k <= |more|
        ensures Session(pending, chunks[..k + 1]) == AllFrames(pending + Flatten(chunks[..k + 1])) <==>
                Session(After(pending, chunk), more[..k]) == AllFrames(After(pending, chunk) + Flatten(more[..k]))
      {
        CallThenRest(pending, chunk, more[..k]);
      }
      if UpToDate(After(pending, chunk), more) {
        forall k | 0 <= k <= |chunks|
          ensures Session(pending, chunks[..k]) == AllFrames(pending + Flatten(chunks[..k]))
        {
          if k > 0 {
            var j := k - 1;
            assert chunks[..j + 1] == chunks[..k];
            assert Session(After(pending, chunk), more[..j]) == AllFrames(After(pending, chunk) + Flatten(more[..j]));
          }
        }
      }
    }
  }

  lemma NothingYet(pending: seq<octet>)
    requires Incomplete(pending)
    ensures Session(pending, []) == AllFrames(pending + Flatten([]))
  {
    assert pending + Flatten([]) == pending;
  }

  /** However the stream is cut: the session has delivered every frame of the bytes so far, after each call, if and
      only if no call drops a frame or the beginning of one. */
  lemma {:induction false} DeliversStreamIff(pending: seq<octet>, chunks: seq<seq<octet>>)
    requires Incomplete(pending)
    ensures UpToDate(pending, chunks) <==> NothingLost(pending, chunks)
    decreases |chunks|
  {
    if chunks == [] {
      NothingYet(pending);
    } else {
      UpToDateStep(pending, chunks);
      DeliversStreamIff(After(pending, chunks[0]), chunks[1..]);
    }
  }

  /** A session in which no call loses anything delivers the frames of the whole stream. */
  lemma SessionDeliversStream(pending: seq<octet>, chunks: seq<seq<octet>>)
    requires NothingLost(pending, chunks) && Incomplete(pending)
    ensures Session(pending, chunks) == AllFrames(pending + Flatten(chunks))
  {
    DeliversStreamIff(pending, chunks);
    assert chunks[..|chunks|] == chunks;
  }

  lemma ResumeAll(p: seq<octet>, tail: seq<octet>, whole: seq<octet>)
    requires Parse(whole) == Parse(p + tail)
    ensures AllFrames(whole) == AllFrames(p + tail)
  {
  }

  /** A host that sends one frame, cut into chunks in any way, gets exactly that frame through. */
  lemma OneFrameInChunks(f: Frame, chunks: seq<seq<octet>>)
    requires Flatten(chunks) == Wire(ToByte(f.command), f.payload)
    ensures Session([], chunks) == ([f], [])
  {
    var w := Wire(ToByte(f.command), f.payload);
    PrefixLosesNothing(f, [], chunks);
    SessionDeliversStream([], chunks);
    assert [] + w == w && w + [] == w;
    WireRoundTrip(f, []);
    LastFrame(f, w);
  }

  lemma LastFrame(f: Frame, buf: seq<octet>)
    requires Parse(buf) == Found(f, [])
    ensures AllFrames(buf) == ([f], [])
  {
    assert Parse([]) == Partial([]);
    assert AllFrames([]) == ([], []);
    assert [f] + [] == [f];
  }

  lemma {:induction false} PrefixLosesNothing(f: Frame, pending: seq<octet>, chunks: seq<seq<octet>>)
    requires pending + Flatten(chunks) == Wire(ToByte(f.command), f.payload) || (pending == [] && Flatten(chunks) == [])
    ensures NothingLost(pending, chunks)
    decreases |chunks|
  {
    if chunks != [] {
      var w, head, tail := Wire(ToByte(f.command), f.payload), pending + chunks[0], Flatten(chunks[1..]);
      assert pending + Flatten(chunks) == head + tail;
      WireLength(ToByte(f.command), f.payload, []);
      assert w + [] == w;
      if head + tail == w {
        if |head| >= 3 {
          assert Length(head) == Length(w);
        }
        if |head| < |w| {
          PrefixLosesNothing(f, head, chunks[1..]);
        } else {
          assert head == w && tail == [];
          WireRoundTrip(f, []);
          PrefixLosesNothing(f, [], chunks[1..]);
        }
      } else {
        assert head == [] && tail == [];
        PrefixLosesNothing(f, [], chunks[1..]);
      }
    }
  }

  /** Two frames in one chunk: the second one is lost. */
  lemma SecondFrameInChunkIsLost(f: Frame, g: Frame)
    ensures var chunk := Wire(ToByte(f.command), f.payload) + Wire(ToByte(g.command), g.payload);
            Session([], [chunk]) == ([f], []) && AllFrames(chunk) == ([f, g], [])
  {
    var w := Wire(ToByte(g.command), g.payload);
    var chunk := Wire(ToByte(f.command), f.payload) + w;
    WireRoundTrip(f, w);
    WireRoundTrip(g, []);
    assert w + [] == w;
    LastFrame(g, w);
    FirstFrameOnly(f, chunk, w);
    assert [f] + [g] == [f, g];
  }

  lemma FirstFrameOnly(f: Frame, chunk: seq<octet>, rest: seq<octet>)
    requires Parse(chunk) == Found(f, rest)
    ensures Session([], [chunk]) == ([f], [])
  {
    assert [] + chunk == chunk;
    var none: seq<seq<octet>> := [];
    assert [chunk][1..] == none;
    assert Session([], none) == ([], []);
    assert [f] + [] == [f];
  }
}
