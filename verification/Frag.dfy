/**
 Segmentation and in-order reassembly of service datagrams
 (micronuts-fips-responder/src/frag.rs).

 A frame is cut into segments `[msg_id][flags] + payload`; the low seven bits of `flags`
 are the segment index and the top bit marks the final segment. The receiver keeps one
 in-flight message. The main results describe the receiver over arbitrary traffic: what
 it completes is determined by the datagrams it was handed, not by its private fields.
 */
module Frag {
  import opened Octets
  import opened Results

  const SEGMENT_HEADER_LEN := 2
  const LAST_FLAG := 0x80
  const MAX_SEGMENTS := 128

  datatype FragError = TruncatedHeader | OutOfOrder | BufferOverflow

  type Datagram = seq<octet>
  type PushResult = Result<Option<seq<octet>>, FragError>

  // ---- Sender ----

  function SegmentCount(frameLen: nat, mtu: nat): (total: nat)
    requires mtu > SEGMENT_HEADER_LEN
    ensures 1 <= total
    ensures frameLen <= total * (mtu - SEGMENT_HEADER_LEN)
    ensures total > 1 ==> (total - 1) * (mtu - SEGMENT_HEADER_LEN) < frameLen
  {
    var cap := mtu - SEGMENT_HEADER_LEN;
    var ceil := (frameLen + cap - 1) / cap;
    CeilBounds(frameLen, cap);
    if ceil < 1 then 1 else ceil
  }

  lemma CeilBounds(n: nat, cap: nat)
    requires cap > 0
    ensures var c := (n + cap - 1) / cap; n <= c * cap && (c >= 1 ==> (c - 1) * cap < n)
  {
    var c := (n + cap - 1) / cap;
    var r := (n + cap - 1) % cap;
    assert n + cap - 1 == c * cap + r;
    assert (c - 1) * cap == c * cap - cap;
  }

  // Where segment `k` starts: the source's moving `offset`.
  function Offset(frameLen: nat, mtu: nat, k: nat): (o: nat)
    requires mtu > SEGMENT_HEADER_LEN
    ensures o <= frameLen
  {
    var reach := k * (mtu - SEGMENT_HEADER_LEN);
    if reach < frameLen then reach else frameLen
  }

  lemma OffsetMonotone(frameLen: nat, mtu: nat, k: nat)
    requires mtu > SEGMENT_HEADER_LEN
    ensures Offset(frameLen, mtu, k) <= Offset(frameLen, mtu, k + 1)
    ensures Offset(frameLen, mtu, k + 1) ==
            if Offset(frameLen, mtu, k) + mtu - SEGMENT_HEADER_LEN < frameLen
            then Offset(frameLen, mtu, k) + mtu - SEGMENT_HEADER_LEN else frameLen
  {
    var cap := mtu - SEGMENT_HEADER_LEN;
    assert (k + 1) * cap == k * cap + cap;
  }

  // Segment `k` of `frame`.
  function Segment(frame: seq<octet>, mtu: nat, msgId: octet, k: nat): (d: Datagram)
    requires mtu > SEGMENT_HEADER_LEN
    requires SegmentCount(|frame|, mtu) <= MAX_SEGMENTS
    requires k < SegmentCount(|frame|, mtu)
  {
    OffsetMonotone(|frame|, mtu, k);
    var flags := if k + 1 == SegmentCount(|frame|, mtu) then LAST_FLAG + k else k;
    [msgId, flags] + frame[Offset(|frame|, mtu, k)..Offset(|frame|, mtu, k + 1)]
  }

  function Segments(frame: seq<octet>, mtu: nat, msgId: octet): (ds: seq<Datagram>)
    requires mtu > SEGMENT_HEADER_LEN
    requires SegmentCount(|frame|, mtu) <= MAX_SEGMENTS
  {
    var total := SegmentCount(|frame|, mtu);
    seq(total, k requires 0 <= k < total => Segment(frame, mtu, msgId, k))
  }

  /** A datagram in literal bytes: the message id; the segment's index, with the top bit set on the last; and its part
      of the frame, as long as the mtu allows except for the last. */
  lemma SegmentLayout(frame: seq<octet>, mtu: nat, msgId: octet, k: nat)
    requires mtu > 2 && SegmentCount(|frame|, mtu) <= 128 && k < SegmentCount(|frame|, mtu)
    ensures var (d, total, cap) := (Segment(frame, mtu, msgId, k), SegmentCount(|frame|, mtu), mtu - 2);
            && |d| >= 2 && d[0] == msgId && d[1] == (if k + 1 == total then 0x80 + k else k)
            && |d| - 2 == (if k + 1 == total then |frame| - k * cap else cap)
            && forall j :: 2 <= j < |d| ==> 0 <= k * cap + (j - 2) < |frame| && d[j] == frame[k * cap + (j - 2)]
  {
    var (total, cap) := (SegmentCount(|frame|, mtu), mtu - 2);
    SegmentReach(|frame|, mtu, k);
    OffsetMonotone(|frame|, mtu, k);
    var d, from := Segment(frame, mtu, msgId, k), k * cap;
    assert d[2..] == frame[from..Offset(|frame|, mtu, k + 1)];
    forall j | 2 <= j < |d| ensures 0 <= from + (j - 2) < |frame| && d[j] == frame[from + (j - 2)] {
      assert d[j] == d[2..][j - 2];
    }
  }

  // Where segment k begins and ends.
  lemma SegmentReach(frameLen: nat, mtu: nat, k: nat)
    requires mtu > 2 && k < SegmentCount(frameLen, mtu)
    ensures var (total, cap) := (SegmentCount(frameLen, mtu), mtu - 2);
            && Offset(frameLen, mtu, k) == k * cap <= frameLen
            && Offset(frameLen, mtu, k + 1) == (if k + 1 == total then frameLen else k * cap + cap)
  {
    var (total, cap) := (SegmentCount(frameLen, mtu), mtu - 2);
    assert (k + 1) * cap == k * cap + cap;
    LessTimes(k, total - 1, cap);
    if k + 1 < total {
      LessTimes(k + 1, total - 1, cap);
    }
  }

  lemma LessTimes(a: nat, b: nat, c: nat)
    requires a <= b
    ensures a * c <= b * c
  {
  }

  /** The sender loop; `emitted` collects the calls of the `emit` callback. */
  method ForEachSegment(frame: seq<octet>, mtu: nat, msgId: octet) returns (emitted: seq<Datagram>)
    requires mtu > SEGMENT_HEADER_LEN
    requires SegmentCount(|frame|, mtu) <= MAX_SEGMENTS
    ensures emitted == Segments(frame, mtu, msgId)
    ensures forall k :: 0 <= k < |emitted| ==> SEGMENT_HEADER_LEN <= |emitted[k]| <= mtu
  {
    var cap := mtu - SEGMENT_HEADER_LEN;
    var total := SegmentCount(|frame|, mtu);
    emitted := [];
    var offset := 0;
    for idx := 0 to total
      invariant offset == Offset(|frame|, mtu, idx)
      invariant |emitted| == idx
      invariant forall k :: 0 <= k < idx ==> emitted[k] == Segment(frame, mtu, msgId, k)
      invariant forall k :: 0 <= k < idx ==> SEGMENT_HEADER_LEN <= |emitted[k]| <= mtu
    {
      OffsetMonotone(|frame|, mtu, idx);
      var end := if offset + cap < |frame| then offset + cap else |frame|;
      var last := idx + 1 == total;
      var flags := if last then LAST_FLAG + idx else idx;
      emitted := emitted + [[msgId, flags] + frame[offset..end]];
      offset := end;
    }
  }

  // ---- Receiver ----

  // A datagram with its header taken apart.
  datatype Seg = Seg(id: octet, idx: nat, last: bool, payload: seq<octet>)

  function Parse(d: Datagram): Option<Seg>
  {
    if |d| < SEGMENT_HEADER_LEN then None
    else Some(Seg(d[0], d[1] % LAST_FLAG, d[1] >= LAST_FLAG, d[SEGMENT_HEADER_LEN..]))
  }

  // The observable state of the receiver; `data` is the filled part of the buffer.
  datatype RState = RState(active: bool, msgId: octet, nextIdx: octet, data: seq<octet>)

  const Fresh := RState(false, 0, 0, [])

  // One call of `push` on a receiver with an N-byte buffer.
  function Push(s: RState, N: nat, d: Datagram): (RState, PushResult)
  {
    match Parse(d)
    case None => (s, Err(TruncatedHeader))
    case Some(g) => Accept(s, N, g)
  }

  function Accept(s: RState, N: nat, g: Seg): (RState, PushResult)
  {
    var inOrder := s.active && g.id == s.msgId && g.idx == s.nextIdx;
    if !inOrder && g.idx != 0 then
      (s.(active := false), Err(OutOfOrder))
    else
      var t := if inOrder then s else RState(true, g.id, 0, []);
      if |t.data| + |g.payload| > N then
        (t.(active := false), Err(BufferOverflow))
      else
        var data := t.data + g.payload;
        var u := t.(data := data, nextIdx := (t.nextIdx + 1) % 256);
        if g.last then (u.(active := false), Ok(Some(data))) else (u, Ok(None))
  }

  class Reassembler {
    var buf: array<octet>
    var len: nat
    var nextIdx: octet
    var msgId: octet
    var active: bool

    ghost predicate Valid()
      reads this
    {
      len <= buf.Length
    }

    ghost function State(): RState
      requires Valid()
      reads this, buf
    {
      RState(active, msgId, nextIdx, buf[..len])
    }

    constructor (N: nat)
      ensures Valid() && State() == Fresh && buf.Length == N && fresh(buf)
    {
      buf := new octet[N];
      len, nextIdx, msgId, active := 0, 0, 0, false;
    }

    // `buf[len..len + n].copy_from_slice(payload); len += n`
    method CopyIn(payload: seq<octet>)
      requires Valid() && len + |payload| <= buf.Length
      modifies this`len, buf
      ensures Valid() && buf[..len] == old(buf[..len]) + payload
    {
      var base := len;
      forall i | 0 <= i < |payload| {
        buf[base + i] := payload[i];
      }
      len := len + |payload|;
    }

    method PushSegment(segment: Datagram) returns (r: PushResult)
      requires Valid()
      modifies this`len, this`nextIdx, this`msgId, this`active, buf
      ensures Valid()
      ensures (State(), r) == Push(old(State()), buf.Length, segment)
    {
      if |segment| < SEGMENT_HEADER_LEN {
        return Err(TruncatedHeader);
      }
      var id, flags := segment[0], segment[1];
      var payload := segment[SEGMENT_HEADER_LEN..];
      var last := flags >= LAST_FLAG;
      var idx := flags % LAST_FLAG;

      var inOrder := active && id == msgId && idx == nextIdx;
      if !inOrder {
        if idx != 0 {
          active := false;
          return Err(OutOfOrder);
        }
        active, msgId, nextIdx, len := true, id, 0, 0;
      }

      if len + |payload| > buf.Length {
        active := false;
        return Err(BufferOverflow);
      }
      CopyIn(payload);
      nextIdx := (nextIdx + 1) % 256;

      if last {
        active := false;
        return Ok(Some(buf[..len]));
      }
      r := Ok(None);
    }
  }

  // ---- What the receiver does, told from the traffic alone ----

  // The state after a whole history of datagrams.
  function Run(N: nat, ds: seq<Datagram>): RState
  {
    if ds == [] then Fresh else Push(Run(N, ds[..|ds| - 1]), N, ds[|ds| - 1]).0
  }

  // The history, without the datagrams too short to carry a header.
  function Intact(ds: seq<Datagram>): (gs: seq<Seg>)
    ensures forall g :: g in gs ==> g.idx < MAX_SEGMENTS
  {
    if ds == [] then []
    else
      var front := Intact(ds[..|ds| - 1]);
      match Parse(ds[|ds| - 1])
      case None => front
      case Some(g) => front + [g]
  }

  // Consecutive segments of one message: indices 0, 1, 2, ... under one message id, none but
  // possibly the newest flagged as last.
  ghost predicate Chain(xs: seq<Seg>)
  {
    && xs != []
    && forall j :: 0 <= j < |xs| ==>
         xs[j].id == xs[0].id && xs[j].idx == j && (j < |xs| - 1 ==> !xs[j].last)
  }

  // The payloads in order of arrival.
  ghost function Gathered(xs: seq<Seg>): seq<octet>
  {
    if xs == [] then [] else Gathered(xs[..|xs| - 1]) + xs[|xs| - 1].payload
  }

  // As many of the newest segments as the newest one's index asks for.
  ghost function Recent(gs: seq<Seg>): (xs: seq<Seg>)
    requires gs != []
  {
    var n := gs[|gs| - 1].idx + 1;
    if n <= |gs| then gs[|gs| - n..] else []
  }

  // The newest segment extends (or opens) an unbroken chain that fits the buffer.
  ghost predicate Fits(gs: seq<Seg>, N: nat)
  {
    gs != [] && Chain(Recent(gs)) && |Gathered(Recent(gs))| <= N
  }

  lemma ChainSnoc(xs: seq<Seg>, g: Seg)
    requires xs != []
    ensures Chain(xs + [g]) <==> Chain(xs) && g.id == xs[0].id && g.idx == |xs| && !xs[|xs| - 1].last
  {
    var ys := xs + [g];
    assert ys[|xs|] == g && ys[0] == xs[0];
    assert forall j :: 0 <= j < |xs| ==> ys[j] == xs[j];
    if Chain(ys) {
      assert !ys[|xs| - 1].last;
    }
  }

  lemma GatheredSnoc(xs: seq<Seg>, g: Seg)
    ensures Gathered(xs + [g]) == Gathered(xs) + g.payload
  {
    assert (xs + [g])[..|xs|] == xs;
  }

  lemma ChainStarts(gs: seq<Seg>, g: Seg)
    requires g.idx == 0
    ensures Recent(gs + [g]) == [g] && Chain([g]) && Gathered([g]) == g.payload
  {
    GatheredSnoc([], g);
    assert [] + [g] == [g];
  }

  // A later segment continues a chain exactly when it is the next of the chain before it.
  lemma ChainContinues(gs: seq<Seg>, g: Seg)
    requires g.idx > 0
    ensures Chain(Recent(gs + [g])) <==>
            && gs != []
            && Chain(Recent(gs))
            && gs[|gs| - 1].idx + 1 == g.idx
            && gs[|gs| - 1].id == g.id
            && !gs[|gs| - 1].last
    ensures Chain(Recent(gs + [g])) ==>
              Gathered(Recent(gs + [g])) == Gathered(Recent(gs)) + g.payload
  {
    if |gs| < g.idx {
      assert Recent(gs + [g]) == [];
      assert gs != [] && gs[|gs| - 1].idx + 1 == g.idx ==> Recent(gs) == [];
    } else {
      var xs := gs[|gs| - g.idx..];
      assert Recent(gs + [g]) == xs + [g];
      assert xs[|xs| - 1] == gs[|gs| - 1];
      ChainSnoc(xs, g);
      GatheredSnoc(xs, g);
      assert gs[|gs| - 1].idx + 1 == g.idx ==> Recent(gs) == xs;
      assert Chain(xs) ==> xs[|xs| - 1].idx == |xs| - 1;
      assert Chain(xs) ==> xs[|xs| - 1].id == xs[0].id;
    }
  }

  // The receiver's private state is the one this history of intact segments determines.
  ghost predicate Tracks(s: RState, gs: seq<Seg>, N: nat)
  {
    && (s.active <==> Fits(gs, N) && !gs[|gs| - 1].last)
    && (s.active ==>
          && s.msgId == gs[|gs| - 1].id
          && s.nextIdx == gs[|gs| - 1].idx + 1
          && s.data == Gathered(Recent(gs)))
  }

  // The answer to segment `g` after the history `gs`, and the state it leaves, follow the history.
  ghost predicate FollowsHistory(s: RState, r: PushResult, gs: seq<Seg>, N: nat)
    requires gs != []
  {
    && Tracks(s, gs, N)
    && (r.Ok? <==> Fits(gs, N))
    && (r.Ok? ==> r.value == if gs[|gs| - 1].last then Some(Gathered(Recent(gs))) else None)
  }

  lemma AcceptFirst(s: RState, gs: seq<Seg>, N: nat, g: Seg)
    requires Tracks(s, gs, N) && g.idx == 0
    ensures FollowsHistory(Accept(s, N, g).0, Accept(s, N, g).1, gs + [g], N)
  {
    ChainStarts(gs, g);
    assert !(s.active && g.idx == s.nextIdx);
    assert [] + g.payload == g.payload;
  }

  // The arithmetic of a later segment: `open` and `data` describe the chain before it.
  lemma AcceptNext(s: RState, N: nat, g: Seg, prev: Seg, open: bool, data: seq<octet>)
    requires 0 < g.idx < MAX_SEGMENTS
    requires s.active <==> open && |data| <= N && !prev.last
    requires s.active ==> s.msgId == prev.id && s.nextIdx == prev.idx + 1 && s.data == data
    ensures var (s', r) := Accept(s, N, g);
            var fits := open && prev.idx + 1 == g.idx && prev.id == g.id && !prev.last && |data + g.payload| <= N;
            && (r.Ok? <==> fits)
            && (r.Ok? ==> r.value == if g.last then Some(data + g.payload) else None)
            && (s'.active <==> fits && !g.last)
            && (s'.active ==> s'.msgId == g.id && s'.nextIdx == g.idx + 1 && s'.data == data + g.payload)
  {
  }

  lemma AcceptLater(s: RState, gs: seq<Seg>, N: nat, g: Seg)
    requires Tracks(s, gs, N) && 0 < g.idx < MAX_SEGMENTS
    ensures FollowsHistory(Accept(s, N, g).0, Accept(s, N, g).1, gs + [g], N)
  {
    ChainContinues(gs, g);
    assert (gs + [g])[|gs|] == g;
    if gs == [] {
      AcceptNext(s, N, g, g, false, []);
    } else {
      AcceptNext(s, N, g, gs[|gs| - 1], Chain(Recent(gs)), Gathered(Recent(gs)));
    }
  }

  lemma AcceptTracks(s: RState, gs: seq<Seg>, N: nat, g: Seg)
    requires Tracks(s, gs, N) && g.idx < MAX_SEGMENTS
    ensures FollowsHistory(Accept(s, N, g).0, Accept(s, N, g).1, gs + [g], N)
  {
    if g.idx == 0 {
      AcceptFirst(s, gs, N, g);
    } else {
      AcceptLater(s, gs, N, g);
    }
  }

  /** In every reachable state the receiver's private fields are what the traffic determines. */
  lemma {:induction false} StateFromHistory(N: nat, ds: seq<Datagram>)
    ensures Tracks(Run(N, ds), Intact(ds), N)
  {
    if ds == [] {
    } else {
      var front := ds[..|ds| - 1];
      StateFromHistory(N, front);
      match Parse(ds[|ds| - 1])
      case None =>
      case Some(g) => AcceptTracks(Run(N, front), Intact(front), N, g);
    }
  }

  /** For any traffic whatever, the answer to the next datagram. It is accepted if and only if it
      extends an unbroken chain that fits the buffer; a frame is completed exactly when it also
      closes that chain, and the frame is then the chain's payload. */
  lemma PushFromHistory(N: nat, ds: seq<Datagram>, d: Datagram)
    requires Parse(d).Some?
    ensures var r, g := Push(Run(N, ds), N, d).1, Parse(d).value;
            var gs := Intact(ds) + [g];
            && (r.Ok? <==> Fits(gs, N))
            && (r.Ok? ==> r.value == if g.last then Some(Gathered(Recent(gs))) else None)
  {
    StateFromHistory(N, ds);
    AcceptTracks(Run(N, ds), Intact(ds), N, Parse(d).value);
  }

  /** Exactly when an error drops the message in flight, after any traffic: always, unless the datagram is too
      short for a header and a message was open. Such a datagram is reported and changes nothing at all. */
  lemma ErrorDropsIff(N: nat, ds: seq<Datagram>, d: Datagram)
    ensures var (s, r) := Push(Run(N, ds), N, d);
            && (r == Err(TruncatedHeader) <==> |d| < SEGMENT_HEADER_LEN)
            && (|d| < SEGMENT_HEADER_LEN ==> s == Run(N, ds) == Run(N, ds + [d]))
            && (r.Err? ==> (!s.active <==> |d| >= SEGMENT_HEADER_LEN || !Run(N, ds).active))
  {
    assert (ds + [d])[..|ds|] == ds;
    if Parse(d).Some? {
      PushFromHistory(N, ds, d);
    }
  }

  /** A message left open: its first segment, then a datagram too short for a header. The error is reported, the
      message stays open, and its last segment still completes it. */
  lemma TruncatedLeavesOpen(N: nat, m: octet, first: octet, last: octet, short: Datagram)
    requires N >= 2 && |short| < SEGMENT_HEADER_LEN
    ensures var opening: Datagram := [m, 0, first];
            && Run(N, [opening]).active
            && Push(Run(N, [opening]), N, short) == (Run(N, [opening]), Err(TruncatedHeader))
            && Push(Run(N, [opening, short]), N, [m, LAST_FLAG + 1, last]).1 == Ok(Some([first, last]))
  {
    var opening: Datagram := [m, 0, first];
    assert [opening][..0] == [] && Run(N, []) == Fresh;
    assert Run(N, [opening]) == Push(Fresh, N, opening).0;
    assert opening[SEGMENT_HEADER_LEN..] == [first] && [] + [first] == [first];
    assert [opening, short][..1] == [opening];
    var closing: Datagram := [m, LAST_FLAG + 1, last];
    assert closing[SEGMENT_HEADER_LEN..] == [last] && [first] + [last] == [first, last];
  }

  /** In every reachable state an open message expects an index between 1 and 128, so the
      8-bit index never wraps, and the data gathered fits the buffer. */
  lemma NextIndexNeverWraps(N: nat, ds: seq<Datagram>)
    ensures Run(N, ds).active ==> 1 <= Run(N, ds).nextIdx <= MAX_SEGMENTS && |Run(N, ds).data| <= N
  {
    StateFromHistory(N, ds);
    var gs := Intact(ds);
    assert gs != [] ==> gs[|gs| - 1] in gs;
  }

  // ---- Sender and receiver together ----

  datatype Sent = Sent(frame: seq<octet>, mtu: nat) {
    predicate Sendable()
    {
      mtu > SEGMENT_HEADER_LEN && SegmentCount(|frame|, mtu) <= MAX_SEGMENTS
    }

    function Total(): nat
      requires Sendable()
    {
      SegmentCount(|frame|, mtu)
    }

    // What the receiver reads in the k-th datagram of this frame.
    function Piece(m: octet, k: nat): Seg
      requires Sendable() && k < Total()
    {
      OffsetMonotone(|frame|, mtu, k);
      Seg(m, k, k + 1 == Total(), frame[Offset(|frame|, mtu, k)..Offset(|frame|, mtu, k + 1)])
    }

    function Pieces(m: octet): seq<Seg>
      requires Sendable()
    {
      seq(Total(), k requires 0 <= k < Total() => Piece(m, k))
    }
  }

  lemma ParseSegment(x: Sent, m: octet, k: nat)
    requires x.Sendable() && k < x.Total()
    ensures Parse(Segment(x.frame, x.mtu, m, k)) == Some(x.Piece(m, k))
  {
    OffsetMonotone(|x.frame|, x.mtu, k);
  }

  type Message = x: Sent | x.Sendable() witness Sent([], 3)

  // `d` is one of the segments the sender cut for the message id it carries.
  ghost predicate Genuine(sent: map<octet, Message>, d: Datagram)
  {
    exists m, k :: m in sent && 0 <= k < sent[m].Total() && d == Segment(sent[m].frame, sent[m].mtu, m, k)
  }

  // ... and `g` is such a segment with its header taken apart.
  ghost predicate GenuineSeg(sent: map<octet, Message>, g: Seg)
  {
    g.id in sent && g.idx < sent[g.id].Total() && g == sent[g.id].Piece(g.id, g.idx)
  }

  lemma GenuineParse(sent: map<octet, Message>, d: Datagram)
    requires Genuine(sent, d)
    ensures Parse(d).Some? && GenuineSeg(sent, Parse(d).value)
  {
    var m, k :| m in sent && 0 <= k < sent[m].Total() && d == Segment(sent[m].frame, sent[m].mtu, m, k);
    ParseSegment(sent[m], m, k);
  }

  // The first pieces of a frame gather to a prefix of it.
  lemma {:induction false} GatheredIsPrefix(x: Sent, m: octet, n: nat)
    requires x.Sendable() && n <= x.Total()
    ensures Gathered(x.Pieces(m)[..n]) == x.frame[..Offset(|x.frame|, x.mtu, n)]
  {
    if n == 0 {
    } else {
      GatheredIsPrefix(x, m, n - 1);
      OffsetMonotone(|x.frame|, x.mtu, n - 1);
      var xs, g := x.Pieces(m)[..n - 1], x.Piece(m, n - 1);
      var a, b := Offset(|x.frame|, x.mtu, n - 1), Offset(|x.frame|, x.mtu, n);
      assert x.Pieces(m)[..n] == xs + [g];
      GatheredSnoc(xs, g);
      assert x.frame[..a] + x.frame[a..b] == x.frame[..b];
    }
  }

  lemma PiecesGather(x: Sent, m: octet)
    requires x.Sendable()
    ensures Gathered(x.Pieces(m)) == x.frame
  {
    GatheredIsPrefix(x, m, x.Total());
    assert x.Pieces(m)[..x.Total()] == x.Pieces(m);
    assert x.frame[..|x.frame|] == x.frame;
  }

  lemma PiecesChain(x: Sent, m: octet, n: nat)
    requires x.Sendable() && 0 < n <= x.Total()
    ensures Chain(x.Pieces(m)[..n])
  {
    var xs := x.Pieces(m)[..n];
    assert forall j :: 0 <= j < n ==> xs[j] == x.Piece(m, j);
  }

  // Every whole datagram of this traffic came from the sender.
  ghost predicate AllGenuine(sent: map<octet, Message>, ds: seq<Datagram>)
  {
    forall d :: d in ds && |d| >= SEGMENT_HEADER_LEN ==> Genuine(sent, d)
  }

  lemma {:induction false} IntactGenuine(sent: map<octet, Message>, ds: seq<Datagram>)
    requires AllGenuine(sent, ds)
    ensures forall g :: g in Intact(ds) ==> GenuineSeg(sent, g)
  {
    if ds == [] {
    } else {
      var front, d := ds[..|ds| - 1], ds[|ds| - 1];
      assert d in ds && forall y :: y in front ==> y in ds;
      IntactGenuine(sent, front);
      if |d| >= SEGMENT_HEADER_LEN {
        GenuineParse(sent, d);
      }
    }
  }

  // An unbroken chain of genuine segments is the beginning of the frame sent.
  lemma ChainIsPieces(sent: map<octet, Message>, xs: seq<Seg>)
    requires Chain(xs) && forall g :: g in xs ==> GenuineSeg(sent, g)
    ensures var m := xs[0].id;
            m in sent && |xs| <= sent[m].Total() && xs == sent[m].Pieces(m)[..|xs|]
  {
    forall j | 0 <= j < |xs| ensures GenuineSeg(sent, xs[j]) {
      assert xs[j] in xs;
    }
    var m := xs[0].id;
    assert xs[|xs| - 1].idx < sent[m].Total();
    assert forall j :: 0 <= j < |xs| ==> xs[j] == sent[m].Piece(m, j);
  }

  /** Safety on a lossy network: whatever is lost, duplicated, reordered or truncated, a frame
      handed up is exactly the frame that was sent under that message id. */
  lemma LossyNetworkSafety(N: nat, sent: map<octet, Message>, ds: seq<Datagram>, d: Datagram, f: seq<octet>)
    requires AllGenuine(sent, ds) && (|d| >= SEGMENT_HEADER_LEN ==> Genuine(sent, d))
    requires Push(Run(N, ds), N, d).1 == Ok(Some(f))
    ensures |d| >= SEGMENT_HEADER_LEN && d[0] in sent && f == sent[d[0]].frame
  {
    GenuineParse(sent, d);
    var g := Parse(d).value;
    PushFromHistory(N, ds, d);
    IntactGenuine(sent, ds);
    ClosedChainIsFrame(sent, Recent(Intact(ds) + [g]), g);
  }

  lemma ClosedChainIsFrame(sent: map<octet, Message>, xs: seq<Seg>, g: Seg)
    requires Chain(xs) && xs[|xs| - 1] == g && g.last
    requires forall y :: y in xs ==> GenuineSeg(sent, y)
    ensures g.id in sent && Gathered(xs) == sent[g.id].frame
  {
    ChainIsPieces(sent, xs);
    var x := sent[g.id];
    assert xs[|xs| - 1] == x.Pieces(g.id)[|xs| - 1];
    assert xs == x.Pieces(g.id);
    PiecesGather(x, g.id);
  }

  lemma IntactSnoc(ds: seq<Datagram>, d: Datagram)
    ensures Intact(ds + [d]) == if Parse(d).Some? then Intact(ds) + [Parse(d).value] else Intact(ds)
  {
    assert (ds + [d])[..|ds|] == ds;
  }

  lemma {:induction false} IntactConcat(xs: seq<Datagram>, ys: seq<Datagram>)
    ensures Intact(xs + ys) == Intact(xs) + Intact(ys)
  {
    if ys == [] {
      assert xs + ys == xs;
    } else {
      IntactConcat(xs, ys[..|ys| - 1]);
      assert (xs + ys)[..|xs + ys| - 1] == xs + ys[..|ys| - 1];
    }
  }

  /** Delivery from any reachable state: after any traffic `ds`, the segments of a frame arrive with
      truncated datagrams mixed in anywhere (`tail` is what arrived before segment k). Segment k is
      answered `None` before the end and hands up the frame at the end, in both cases if and only if
      what has been sent so far fits the buffer. */
  lemma DeliveryFromAnyState(N: nat, ds: seq<Datagram>, x: Sent, m: octet, tail: seq<Datagram>, k: nat)
    requires x.Sendable() && k < x.Total()
    requires Intact(tail) == x.Pieces(m)[..k]
    ensures var r := Push(Run(N, ds + tail), N, Segment(x.frame, x.mtu, m, k)).1;
            && (r.Ok? <==> Offset(|x.frame|, x.mtu, k + 1) <= N)
            && (r.Ok? ==> r.value == if k + 1 < x.Total() then None else Some(x.frame))
  {
    hide Push, Run, Fits, Recent, Gathered;
    ParseSegment(x, m, k);
    NewestIsPiece(N, ds, x, m, tail, k);
    PushFromHistory(N, ds + tail, Segment(x.frame, x.mtu, m, k));
  }

  // The chain that segment k extends is the frame so far.
  lemma NewestIsPiece(N: nat, ds: seq<Datagram>, x: Sent, m: octet, tail: seq<Datagram>, k: nat)
    requires x.Sendable() && k < x.Total() && Intact(tail) == x.Pieces(m)[..k]
    ensures var gs := Intact(ds + tail) + [x.Piece(m, k)];
            && (Fits(gs, N) <==> Offset(|x.frame|, x.mtu, k + 1) <= N)
            && (k + 1 == x.Total() ==> Gathered(Recent(gs)) == x.frame)
  {
    hide Gathered, Chain, Recent, Offset;
    NewestAre(ds, x, m, tail, k);
    PiecesChain(x, m, k + 1);
    GatheredIsPrefix(x, m, k + 1);
    if k + 1 == x.Total() {
      OffsetEnds(x);
      assert x.frame[..|x.frame|] == x.frame;
    }
  }

  lemma OffsetEnds(x: Sent)
    requires x.Sendable()
    ensures Offset(|x.frame|, x.mtu, x.Total()) == |x.frame|
  {
  }

  lemma NewestAre(ds: seq<Datagram>, x: Sent, m: octet, tail: seq<Datagram>, k: nat)
    requires x.Sendable() && k < x.Total() && Intact(tail) == x.Pieces(m)[..k]
    ensures Recent(Intact(ds + tail) + [x.Piece(m, k)]) == x.Pieces(m)[..k + 1]
  {
    hide Intact;
    IntactConcat(ds, tail);
    var before, pieces := Intact(ds), x.Pieces(m);
    assert Intact(ds + tail) + [x.Piece(m, k)] == before + pieces[..k + 1];
  }

  /** The datagrams the sender emits are read by the receiver as the pieces of the frame, so the
      two lemmas above speak about what `ForEachSegment` sends. */
  lemma {:induction false} SegmentsReadAsPieces(x: Sent, m: octet, n: nat)
    requires x.Sendable() && n <= x.Total()
    ensures Intact(Segments(x.frame, x.mtu, m)[..n]) == x.Pieces(m)[..n]
  {
    if n == 0 {
    } else {
      hide Segment, Parse;
      SegmentsReadAsPieces(x, m, n - 1);
      var ds, d := Segments(x.frame, x.mtu, m), Segment(x.frame, x.mtu, m, n - 1);
      assert ds[..n] == ds[..n - 1] + [d];
      ParseSegment(x, m, n - 1);
      assert x.Pieces(m)[..n] == x.Pieces(m)[..n - 1] + [x.Piece(m, n - 1)];
      IntactSnoc(ds[..n - 1], d);
    }
  }
}
