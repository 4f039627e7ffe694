/**
 The concurrency of the audit adapter (micronuts-audit-adapter/src/main.rs, `MintProcess::call_raw`,
 `AdapterState::call_mint`, `AdapterState::cached_post`).

 Handlers run interleaved; each is cut at its `await` points into steps on the shared state: the mint mutex,
 the id counter, the two pipes and the NUT-19 cache. The mint answers the request lines in order, one line each.
 */
module Adapter {
  import opened Results

  const ID_LIMIT := 0x1_0000_0000

  // A response line: an envelope with its id, or anything `call_raw` cannot decode.
  datatype Line<B> = Reply(id: nat, body: B) | Garbled

  // The ticket counts the calls that took an id before this one; it is not on the wire.
  datatype Request<M> = Request(ticket: nat, id: nat, rpc: M)
  datatype Answer<M, B> = Answer(ticket: nat, rpc: M, line: Line<B>)

  datatype Origin<M> = FromCache | FromMint(rpc: M, ticket: nat)

  // Where a handler stands.
  datatype Pc<K, M, V> =
    | Looking(key: K)
    | Queued(cacheKey: Option<K>, rpc: M)
    | Writing(cacheKey: Option<K>, rpc: M, ticket: nat, id: nat)
    | Reading(cacheKey: Option<K>, rpc: M, ticket: nat, id: nat)
    | Storing(key: K, rpc: M, ticket: nat, value: V)
    | Served(cacheKey: Option<K>, value: V, origin: Origin<M>)
    | Refused
    | Gone

  // How a cached body is turned into a mint request, and a mint response into a 200 body.
  datatype Env<!K, !M, !B, !V> = Env(rpcOf: K -> Option<M>, accept: (M, B) -> Option<V>)

  datatype State<!K, M, B, V> = State(
    nextId: nat,
    holder: Option<nat>,
    stdin: seq<Request<M>>,
    stdout: seq<Answer<M, B>>,
    cache: map<K, V>,
    tasks: map<nat, Pc<K, M, V>>,
    issued: nat,                   // calls that took an id
    unsent: nat,                   // of these, the ones that ended before writing their line
    answers: seq<Answer<M, B>>)    // every line the mint wrote

  datatype Event<K, M, B> =
    | StartCached(t: nat, key: K)
    | StartPlain(t: nat, rpc: M)
    | LookUp(t: nat)
    | Acquire(t: nat)
    | Send(t: nat)
    | MintAnswers(line: Line<B>)
    | Read(t: nat)
    | Store(t: nat)
    | Drop(t: nat)                 // the client went away, or a write or a read failed

  function Init<K(==), M, B, V>(): State<K, M, B, V>
  {
    State(1, None, [], [], map[], map[], 0, 0, [])
  }

  predicate Enabled<K(==), M, B, V>(st: State<K, M, B, V>, ev: Event<K, M, B>)
  {
    match ev
    case StartCached(t, _) => t !in st.tasks
    case StartPlain(t, _) => t !in st.tasks
    case LookUp(t) => t in st.tasks && st.tasks[t].Looking?
    case Acquire(t) => t in st.tasks && st.tasks[t].Queued? && st.holder.None?
    case Send(t) => t in st.tasks && st.tasks[t].Writing?
    case MintAnswers(line) => st.stdin != [] && (line.Reply? ==> line.id == st.stdin[0].id)
    case Read(t) => t in st.tasks && st.tasks[t].Reading? && st.stdout != []
    case Store(t) => t in st.tasks && st.tasks[t].Storing?
    case Drop(t) => t in st.tasks && !st.tasks[t].Served? && !st.tasks[t].Refused? && !st.tasks[t].Gone?
  }

  // `call_raw` returns `Ok` on this line.
  predicate Matches<K, M, B, V>(pc: Pc<K, M, V>, line: Line<B>)
    requires pc.Reading?
  {
    line.Reply? && line.id == pc.id
  }

  // What the handler does with the line it read.
  function AfterRead<K, M, B, V>(env: Env<K, M, B, V>, pc: Pc<K, M, V>, line: Line<B>): Pc<K, M, V>
    requires pc.Reading?
  {
    if !Matches(pc, line) then Refused
    else match env.accept(pc.rpc, line.body)
         case None => Refused
         case Some(v) =>
           if pc.cacheKey.Some? then Storing(pc.cacheKey.value, pc.rpc, pc.ticket, v)
           else Served(None, v, FromMint(pc.rpc, pc.ticket))
  }

  function Next<K(==), M, B, V>(env: Env<K, M, B, V>, st: State<K, M, B, V>, ev: Event<K, M, B>): State<K, M, B, V>
    requires Enabled(st, ev)
  {
    match ev
    case StartCached(t, key) => st.(tasks := st.tasks[t := Looking(key)])
    case StartPlain(t, rpc) => st.(tasks := st.tasks[t := Queued(None, rpc)])
    case LookUp(t) =>
      var key := st.tasks[t].key;
      var pc :=
        if key in st.cache then Served(Some(key), st.cache[key], FromCache)
        else match env.rpcOf(key)
             case None => Refused
             case Some(m) => Queued(Some(key), m);
      st.(tasks := st.tasks[t := pc])
    case Acquire(t) =>
      var pc := st.tasks[t];
      st.(holder := Some(t), nextId := (st.nextId + 1) % ID_LIMIT, issued := st.issued + 1,
          tasks := st.tasks[t := Writing(pc.cacheKey, pc.rpc, st.issued, st.nextId)])
    case Send(t) =>
      var pc := st.tasks[t];
      st.(stdin := st.stdin + [Request(pc.ticket, pc.id, pc.rpc)],
          tasks := st.tasks[t := Reading(pc.cacheKey, pc.rpc, pc.ticket, pc.id)])
    case MintAnswers(line) =>
      var a := Answer(st.stdin[0].ticket, st.stdin[0].rpc, line);
      st.(stdin := st.stdin[1..], stdout := st.stdout + [a], answers := st.answers + [a])
    case Read(t) =>
      st.(stdout := st.stdout[1..], holder := None,
          tasks := st.tasks[t := AfterRead(env, st.tasks[t], st.stdout[0].line)])
    case Store(t) =>
      var pc := st.tasks[t];
      st.(cache := st.cache[pc.key := pc.value],
          tasks := st.tasks[t := Served(Some(pc.key), pc.value, FromMint(pc.rpc, pc.ticket))])
    case Drop(t) =>
      st.(holder := if st.holder == Some(t) then None else st.holder,
          unsent := if st.tasks[t].Writing? then st.unsent + 1 else st.unsent,
          tasks := st.tasks[t := Gone])
  }

  // ---- What every step keeps ----

  function IdOf(ticket: nat): nat { (ticket + 1) % ID_LIMIT }

  predicate Busy<K, M, V>(pc: Pc<K, M, V>) { pc.Writing? || pc.Reading? }

  // The requests whose line has not been read, oldest first.
  function Tickets<K, M, B, V>(st: State<K, M, B, V>): seq<nat>
  {
    seq(|st.stdout|, i requires 0 <= i < |st.stdout| => st.stdout[i].ticket)
    + seq(|st.stdin|, i requires 0 <= i < |st.stdin| => st.stdin[i].ticket)
  }

  // The mutex: only its holder is inside a call, and it is the latest call.
  ghost predicate Exclusive<K, M, B, V>(st: State<K, M, B, V>)
  {
    && st.nextId == IdOf(st.issued)
    && (st.holder.Some? ==> st.holder.value in st.tasks)
    && forall t :: t in st.tasks ==>
         && (Busy(st.tasks[t]) <==> st.holder == Some(t))
         && (Busy(st.tasks[t]) ==> st.tasks[t].ticket + 1 == st.issued && st.tasks[t].id == IdOf(st.tasks[t].ticket))
  }

  // The call in progress.
  function Inside<K, M, B, V>(st: State<K, M, B, V>): Option<Pc<K, M, V>>
  {
    if st.holder.Some? && st.holder.value in st.tasks then Some(st.tasks[st.holder.value]) else None
  }

  predicate Awaiting<K, M, V>(inside: Option<Pc<K, M, V>>) { inside.Some? && inside.value.Reading? }

  // The calls whose line was written or never will be.
  function Settled<K, M, B, V>(st: State<K, M, B, V>): int
  {
    if Inside(st).Some? && Inside(st).value.Writing? then st.issued - 1 else st.issued
  }

  // Lines in the order of their calls, with at most `unsent` calls missing between them.
  ghost predicate Spaced(q: seq<nat>, settled: int, unsent: nat)
  {
    && (forall i, j :: 0 <= i < j < |q| ==> q[i] < q[j])
    && (forall i :: 0 <= i < |q| ==> q[i] < settled <= q[i] + |q| - i + unsent)
  }

  ghost predicate Ordered<K, M, B, V>(st: State<K, M, B, V>)
  {
    var q := Tickets(st);
    && Spaced(q, Settled(st), st.unsent)
    && (Awaiting(Inside(st)) ==> |q| > 0 && q[|q| - 1] == Inside(st).value.ticket)
  }

  // What is in the pipes is what was asked and answered.
  ghost predicate Honest<K, M, B, V>(st: State<K, M, B, V>)
  {
    && (forall i :: 0 <= i < |st.stdin| ==> st.stdin[i].id == IdOf(st.stdin[i].ticket))
    && (forall i :: 0 <= i < |st.stdout| ==>
          && (st.stdout[i].line.Reply? ==> st.stdout[i].line.id == IdOf(st.stdout[i].ticket))
          && st.stdout[i] in st.answers)
  }

  // The line the call in progress waits for asks what it wants to ask.
  ghost predicate Asked<K, M, B, V>(st: State<K, M, B, V>)
  {
    Awaiting(Inside(st)) ==>
      var pc := Inside(st).value;
      && (forall i :: 0 <= i < |st.stdin| && st.stdin[i].ticket == pc.ticket ==> st.stdin[i].rpc == pc.rpc)
      && (forall i :: 0 <= i < |st.stdout| && st.stdout[i].ticket == pc.ticket ==> st.stdout[i].rpc == pc.rpc)
  }

  // One answer per call, all for calls already made and not waiting in stdin.
  ghost predicate AnsweredOnce<K, M, B, V>(st: State<K, M, B, V>)
  {
    && (forall i, j :: 0 <= i < j < |st.answers| ==> st.answers[i].ticket < st.answers[j].ticket)
    && (forall i :: 0 <= i < |st.answers| ==> st.answers[i].ticket < Settled(st))
    && (forall i, j :: 0 <= i < |st.answers| && 0 <= j < |st.stdin| ==> st.answers[i].ticket < st.stdin[j].ticket)
  }

  ghost predicate Structure<K, M, B, V>(st: State<K, M, B, V>)
  {
    Exclusive(st) && Ordered(st) && Honest(st) && Asked(st) && AnsweredOnce(st)
  }

  lemma {:induction false} ExclusiveKept<K, M, B, V>(env: Env<K, M, B, V>, st: State<K, M, B, V>, ev: Event<K, M, B>)
    requires Exclusive(st) && Enabled(st, ev)
    ensures Exclusive(Next(env, st, ev))
  {
    hide IdOf;
    IdAfter(st.issued);
  }

  lemma IdAfter(n: nat)
    ensures (IdOf(n) + 1) % ID_LIMIT == IdOf(n + 1)
  {
  }

  // How a step changes the call in progress.
  function InsideAfter<K, M, B, V>(st: State<K, M, B, V>, ev: Event<K, M, B>): Option<Pc<K, M, V>>
    requires Enabled(st, ev)
  {
    match ev
    case Acquire(t) => Some(Writing(st.tasks[t].cacheKey, st.tasks[t].rpc, st.issued, st.nextId))
    case Send(t) => Some(Reading(st.tasks[t].cacheKey, st.tasks[t].rpc, st.tasks[t].ticket, st.tasks[t].id))
    case Read(t) => None
    case Drop(t) => if Busy(st.tasks[t]) then None else Inside(st)
    case _ => Inside(st)
  }

  lemma {:induction false} InsideFollows<K, M, B, V>(env: Env<K, M, B, V>, st: State<K, M, B, V>, ev: Event<K, M, B>)
    requires Exclusive(st) && Enabled(st, ev)
    ensures Inside(Next(env, st, ev)) == InsideAfter(st, ev)
    ensures ev.Acquire? ==> Inside(st).None?
    ensures (ev.Send? || ev.Read? || (ev.Drop? && Busy(st.tasks[ev.t]))) ==>
              && Inside(st) == Some(st.tasks[ev.t]) && st.tasks[ev.t].ticket + 1 == st.issued
              && st.tasks[ev.t].id == IdOf(st.tasks[ev.t].ticket)
  {
  }

  lemma {:induction false} OrderedKept<K, M, B, V>(env: Env<K, M, B, V>, st: State<K, M, B, V>, ev: Event<K, M, B>)
    requires Exclusive(st) && Ordered(st) && Enabled(st, ev)
    ensures Ordered(Next(env, st, ev))
  {
    hide Exclusive, Inside, Tickets, IdOf;
    var q, st' := Tickets(st), Next(env, st, ev);
    InsideFollows(env, st, ev);
    TicketsFollow(env, st, ev);
  }

  lemma {:induction false} TicketsFollow<K, M, B, V>(env: Env<K, M, B, V>, st: State<K, M, B, V>, ev: Event<K, M, B>)
    requires Enabled(st, ev)
    ensures var q, q' := Tickets(st), Tickets(Next(env, st, ev));
            match ev
            case Send(t) => q' == q + [st.tasks[t].ticket]
            case Read(t) => q != [] && q' == q[1..]
            case _ => q' == q
  {
  }

  lemma {:induction false} HonestKept<K, M, B, V>(env: Env<K, M, B, V>, st: State<K, M, B, V>, ev: Event<K, M, B>)
    requires Exclusive(st) && Honest(st) && Enabled(st, ev)
    ensures Honest(Next(env, st, ev))
  {
    hide Exclusive, Inside, IdOf;
    InsideFollows(env, st, ev);
  }

  lemma {:induction false} AskedKept<K, M, B, V>(env: Env<K, M, B, V>, st: State<K, M, B, V>, ev: Event<K, M, B>)
    requires Exclusive(st) && Ordered(st) && Asked(st) && Enabled(st, ev)
    ensures Asked(Next(env, st, ev))
  {
    hide Exclusive, Inside, IdOf;
    InsideFollows(env, st, ev);
    if ev.Send? {
      var q := Tickets(st);
      assert forall i :: 0 <= i < |st.stdout| ==> q[i] == st.stdout[i].ticket;
      assert forall i :: 0 <= i < |st.stdin| ==> q[|st.stdout| + i] == st.stdin[i].ticket;
    }
  }

  lemma StdinAscends<K, M, B, V>(st: State<K, M, B, V>)
    requires Ordered(st)
    ensures forall i, j :: 0 <= i < j < |st.stdin| ==> st.stdin[i].ticket < st.stdin[j].ticket
    ensures forall i :: 0 <= i < |st.stdin| ==> st.stdin[i].ticket < Settled(st)
  {
    var q := Tickets(st);
    assert forall i :: 0 <= i < |st.stdin| ==> q[|st.stdout| + i] == st.stdin[i].ticket;
  }

  lemma {:induction false} AnsweredOnceKept<K, M, B, V>(env: Env<K, M, B, V>, st: State<K, M, B, V>, ev: Event<K, M, B>)
    requires Exclusive(st) && Ordered(st) && AnsweredOnce(st) && Enabled(st, ev)
    ensures AnsweredOnce(Next(env, st, ev))
  {
    hide Exclusive, Inside, IdOf, Ordered, Tickets;
    InsideFollows(env, st, ev);
    if ev.MintAnswers? || ev.Send? {
      StdinAscends(st);
    }
  }
}
