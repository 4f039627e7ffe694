/** What holds of the adapter after every interleaving of its handlers, their clients' departures and the mint. */
module AdapterRuns {
  import opened Results
  import opened Adapter

  // The state after these events, if each was possible when it came.
  function Exec<K(==), M, B, V>(env: Env<K, M, B, V>, evs: seq<Event<K, M, B>>): Option<State<K, M, B, V>>
  {
    if evs == [] then Some(Init())
    else match Exec(env, evs[..|evs| - 1])
         case None => None
         case Some(st) => if Enabled(st, evs[|evs| - 1]) then Some(Next(env, st, evs[|evs| - 1])) else None
  }

  // No id was taken twice since the line that is read next was asked for.
  predicate Recent<K, M, B, V>(st: State<K, M, B, V>)
  {
    st.stdout != [] ==> st.issued - st.stdout[0].ticket <= ID_LIMIT
  }

  /** It is so, in particular, while unread lines and calls that took an id and wrote no line are together fewer
      than the ids there are. */
  lemma FewIsRecent<K, M, B, V>(st: State<K, M, B, V>)
    requires Structure(st) && |st.stdin| + |st.stdout| + st.unsent < ID_LIMIT
    ensures Recent(st)
  {
    if st.stdout != [] {
      assert Tickets(st)[0] == st.stdout[0].ticket;
    }
  }

  // It was so whenever a call read its reply.
  predicate RecentAtReads<K(==), M, B, V>(env: Env<K, M, B, V>, evs: seq<Event<K, M, B>>)
  {
    evs == [] ||
    var front := evs[..|evs| - 1];
    RecentAtReads(env, front) && (evs[|evs| - 1].Read? && Exec(env, front).Some? ==> Recent(Exec(env, front).value))
  }

  lemma {:induction false} StructureKept<K, M, B, V>(env: Env<K, M, B, V>, st: State<K, M, B, V>, ev: Event<K, M, B>)
    requires Structure(st) && Enabled(st, ev)
    ensures Structure(Next(env, st, ev))
  {
    hide Exclusive, Ordered, Honest, Asked, AnsweredOnce, Enabled, Next;
    ExclusiveKept(env, st, ev);
    OrderedKept(env, st, ev);
    HonestKept(env, st, ev);
    AskedKept(env, st, ev);
    AnsweredOnceKept(env, st, ev);
  }

  lemma {:induction false} ReachedHasStructure<K, M, B, V>(env: Env<K, M, B, V>, evs: seq<Event<K, M, B>>)
    ensures Exec(env, evs).Some? ==> Structure(Exec(env, evs).value)
  {
    hide Enabled, Next;
    if evs == [] {
    } else {
      var front := evs[..|evs| - 1];
      ReachedHasStructure(env, front);
      if Exec(env, evs).Some? {
        hide Structure;
        StructureKept(env, Exec(env, front).value, evs[|evs| - 1]);
      }
    }
  }

  // ---- A reply belongs to its call ----

  lemma SameId(k: nat, h: nat)
    requires h <= k && IdOf(h) == IdOf(k)
    ensures h == k <==> k - h < ID_LIMIT
  {
  }

  /** A call that returns `Ok` has its own reply exactly when fewer than 2^32 ids were taken since the reply's. */
  lemma OkIsOwnIff<K, M, B, V>(st: State<K, M, B, V>, t: nat)
    requires Structure(st) && Enabled(st, Read(t)) && Matches(st.tasks[t], st.stdout[0].line)
    ensures var (mine, got) := (st.tasks[t].ticket, st.stdout[0].ticket);
            && got <= mine
            && (got == mine <==> mine - got < ID_LIMIT)
            && (got == mine ==> st.stdout[0].rpc == st.tasks[t].rpc && st.stdout[0] in st.answers)
  {
    hide IdOf;
    var q := Tickets(st);
    assert q[0] == st.stdout[0].ticket;
    SameId(st.tasks[t].ticket, st.stdout[0].ticket);
  }

  // Replies that no call is waiting for any more.
  function Lag<K, M, B, V>(st: State<K, M, B, V>): int
  {
    |st.stdin| + |st.stdout| - if Awaiting(Inside(st)) then 1 else 0
  }

  /** A call returns `Ok` exactly when the mint answered with an envelope and nothing stale was in the pipes. */
  lemma OkIff<K, M, B, V>(st: State<K, M, B, V>, t: nat)
    requires Structure(st) && Recent(st) && Enabled(st, Read(t))
    ensures Matches(st.tasks[t], st.stdout[0].line) <==> st.stdout[0].line.Reply? && Lag(st) == 0
    ensures Matches(st.tasks[t], st.stdout[0].line) ==> st.stdout[0].ticket == st.tasks[t].ticket
  {
    hide IdOf;
    var q := Tickets(st);
    assert q[0] == st.stdout[0].ticket;
    assert Inside(st) == Some(st.tasks[t]);
    if Matches(st.tasks[t], st.stdout[0].line) {
      SameId(st.tasks[t].ticket, st.stdout[0].ticket);
    }
  }

  predicate Abandons<K(==), M, B, V>(st: State<K, M, B, V>, ev: Event<K, M, B>)
  {
    ev.Drop? && ev.t in st.tasks && st.tasks[ev.t].Reading?
  }

  // How many calls were abandoned after their request was written.
  function Abandoned<K(==), M, B, V>(env: Env<K, M, B, V>, evs: seq<Event<K, M, B>>): nat
  {
    if evs == [] then 0
    else
      var front := evs[..|evs| - 1];
      var st := Exec(env, front);
      Abandoned(env, front) + if st.Some? && Abandons(st.value, evs[|evs| - 1]) then 1 else 0
  }

  lemma {:induction false} LagFollows<K, M, B, V>(env: Env<K, M, B, V>, st: State<K, M, B, V>, ev: Event<K, M, B>)
    requires Structure(st) && Enabled(st, ev)
    ensures Lag(Next(env, st, ev)) == Lag(st) + if Abandons(st, ev) then 1 else 0
  {
    hide Exclusive, Ordered, Honest, Asked, AnsweredOnce, Inside;
    InsideFollows(env, st, ev);
  }

  /** The pipes never recover: the number of stale replies is the number of calls ever abandoned mid-way. */
  lemma {:induction false} LagCountsAbandoned<K, M, B, V>(env: Env<K, M, B, V>, evs: seq<Event<K, M, B>>)
    requires Exec(env, evs).Some?
    ensures Lag(Exec(env, evs).value) == Abandoned(env, evs)
  {
    hide Enabled, Next, Structure, Abandons;
    if evs == [] {
    } else {
      var front := evs[..|evs| - 1];
      LagCountsAbandoned(env, front);
      ReachedHasStructure(env, front);
      hide Lag;
      LagFollows(env, Exec(env, front).value, evs[|evs| - 1]);
    }
  }

  /** In every run: a call returns `Ok` if and only if the mint sent it an envelope and no call was abandoned after
      its request was written, at any earlier time. One such client disables the adapter for good. */
  lemma OneAbandonedCallBlocksAllLater<K, M, B, V>(env: Env<K, M, B, V>, evs: seq<Event<K, M, B>>, t: nat)
    requires Exec(env, evs).Some? && Recent(Exec(env, evs).value) && Enabled(Exec(env, evs).value, Read(t))
    ensures var st := Exec(env, evs).value;
            Matches(st.tasks[t], st.stdout[0].line) <==> st.stdout[0].line.Reply? && Abandoned(env, evs) == 0
  {
    hide Structure, Lag;
    ReachedHasStructure(env, evs);
    LagCountsAbandoned(env, evs);
    OkIff(Exec(env, evs).value, t);
  }

  // ---- What is served ----

  predicate Gives<K, M(==), B, V(==)>(env: Env<K, M, B, V>, a: Answer<M, B>, rpc: M, value: V)
  {
    a.rpc == rpc && a.line.Reply? && env.accept(rpc, a.line.body) == Some(value)
  }

  // The mint's answer to this very call gives this value.
  ghost predicate Own<K, M, B, V>(env: Env<K, M, B, V>, answers: seq<Answer<M, B>>, rpc: M, ticket: nat, value: V)
  {
    exists i :: 0 <= i < |answers| && answers[i].ticket == ticket && Gives(env, answers[i], rpc, value)
  }

  // Some answer to this cached request gives this value.
  ghost predicate ForKey<K, M, B, V>(env: Env<K, M, B, V>, answers: seq<Answer<M, B>>, key: K, value: V)
  {
    env.rpcOf(key).Some? && exists ticket :: Own(env, answers, env.rpcOf(key).value, ticket, value)
  }

  ghost predicate Grounded<K, M, B, V>(env: Env<K, M, B, V>, answers: seq<Answer<M, B>>, pc: Pc<K, M, V>)
  {
    match pc
    case Queued(k, rpc) => k.Some? ==> env.rpcOf(k.value) == Some(rpc)
    case Writing(k, rpc, _, _) => k.Some? ==> env.rpcOf(k.value) == Some(rpc)
    case Reading(k, rpc, _, _) => k.Some? ==> env.rpcOf(k.value) == Some(rpc)
    case Storing(k, rpc, ticket, v) => env.rpcOf(k) == Some(rpc) && Own(env, answers, rpc, ticket, v)
    case Served(k, v, FromMint(rpc, ticket)) =>
      (k.Some? ==> env.rpcOf(k.value) == Some(rpc)) && Own(env, answers, rpc, ticket, v)
    case Served(k, v, FromCache) => k.Some? && ForKey(env, answers, k.value, v)
    case _ => true
  }

  ghost predicate Sourced<K, M, B, V>(env: Env<K, M, B, V>, st: State<K, M, B, V>)
  {
    && (forall t :: t in st.tasks ==> Grounded(env, st.answers, st.tasks[t]))
    && (forall k :: k in st.cache ==> ForKey(env, st.answers, k, st.cache[k]))
  }

  lemma OwnGrows<K, M, B, V>(env: Env<K, M, B, V>, answers: seq<Answer<M, B>>, a: Answer<M, B>, rpc: M, ticket: nat,
                             value: V)
    requires Own(env, answers, rpc, ticket, value)
    ensures Own(env, answers + [a], rpc, ticket, value)
  {
    var i :| 0 <= i < |answers| && answers[i].ticket == ticket && Gives(env, answers[i], rpc, value);
    assert (answers + [a])[i] == answers[i];
  }

  lemma ForKeyGrows<K, M, B, V>(env: Env<K, M, B, V>, answers: seq<Answer<M, B>>, a: Answer<M, B>, key: K, value: V)
    requires ForKey(env, answers, key, value)
    ensures ForKey(env, answers + [a], key, value)
  {
    var ticket :| Own(env, answers, env.rpcOf(key).value, ticket, value);
    OwnGrows(env, answers, a, env.rpcOf(key).value, ticket, value);
  }

  lemma GroundedGrows<K, M, B, V>(env: Env<K, M, B, V>, answers: seq<Answer<M, B>>, a: Answer<M, B>, pc: Pc<K, M, V>)
    requires Grounded(env, answers, pc)
    ensures Grounded(env, answers + [a], pc)
  {
    hide Own, ForKey;
    match pc
    case Storing(k, rpc, ticket, v) => OwnGrows(env, answers, a, rpc, ticket, v);
    case Served(k, v, FromMint(rpc, ticket)) => OwnGrows(env, answers, a, rpc, ticket, v);
    case Served(k, v, FromCache) => ForKeyGrows(env, answers, a, k.value, v);
    case _ =>
  }

  lemma SourcedOnRead<K, M, B, V>(env: Env<K, M, B, V>, st: State<K, M, B, V>, t: nat)
    requires Structure(st) && Recent(st) && Enabled(st, Read(t)) && Grounded(env, st.answers, st.tasks[t])
    ensures Grounded(env, st.answers, AfterRead(env, st.tasks[t], st.stdout[0].line))
  {
    hide Structure;
    if Matches(st.tasks[t], st.stdout[0].line) {
      OkIff(st, t);
      OkIsOwnIff(st, t);
    }
  }

  lemma {:induction false} SourcedKept<K, M, B, V>(env: Env<K, M, B, V>, st: State<K, M, B, V>, ev: Event<K, M, B>)
    requires Structure(st) && Sourced(env, st) && Enabled(st, ev) && (ev.Read? ==> Recent(st))
    ensures Sourced(env, Next(env, st, ev))
  {
    hide Structure, Own, ForKey, AfterRead;
    match ev
    case MintAnswers(line) =>
      var a := Answer(st.stdin[0].ticket, st.stdin[0].rpc, line);
      forall t | t in st.tasks ensures Grounded(env, st.answers + [a], st.tasks[t]) {
        GroundedGrows(env, st.answers, a, st.tasks[t]);
      }
      forall k | k in st.cache ensures ForKey(env, st.answers + [a], k, st.cache[k]) {
        ForKeyGrows(env, st.answers, a, k, st.cache[k]);
      }
    case Read(t) => SourcedOnRead(env, st, t);
    case Store(t) =>
      assert Grounded(env, st.answers, st.tasks[t]);
      StoredForKey(env, st.answers, st.tasks[t]);
    case _ =>
  }

  lemma StoredForKey<K, M, B, V>(env: Env<K, M, B, V>, answers: seq<Answer<M, B>>, pc: Pc<K, M, V>)
    requires pc.Storing? && Grounded(env, answers, pc)
    ensures ForKey(env, answers, pc.key, pc.value)
  {
  }

  /** In every run: whatever a handler stores or serves from a call is what the mint answered to that very call
      (its only answer, as one line answers one call), and what it serves from the cache was an answer to the
      same request. */
  lemma {:induction false} EveryReplyIsOwn<K, M, B, V>(env: Env<K, M, B, V>, evs: seq<Event<K, M, B>>)
    requires Exec(env, evs).Some? && RecentAtReads(env, evs)
    ensures Sourced(env, Exec(env, evs).value) && AnsweredOnce(Exec(env, evs).value)
  {
    hide Enabled, Next, Sourced, Structure, AnsweredOnce, Recent, Init;
    ReachedHasStructure(env, evs);
    HasAnsweredOnce(Exec(env, evs).value);
    if evs == [] {
      InitSourced(env);
    } else {
      var front := evs[..|evs| - 1];
      EveryReplyIsOwn(env, front);
      ReachedHasStructure(env, front);
      SourcedKept(env, Exec(env, front).value, evs[|evs| - 1]);
    }
  }

  lemma HasAnsweredOnce<K, M, B, V>(st: State<K, M, B, V>)
    requires Structure(st)
    ensures AnsweredOnce(st)
  {
  }

  lemma InitSourced<K, M, B, V>(env: Env<K, M, B, V>)
    ensures Sourced(env, Init())
  {
  }

  // The mint accepts each request behind a cached key at most once.
  ghost predicate AcceptsOnce<K(!new), M, B, V>(env: Env<K, M, B, V>, answers: seq<Answer<M, B>>)
  {
    forall key: K, i, j ::
      && 0 <= i < |answers| && 0 <= j < |answers|
      && env.rpcOf(key).Some?
      && Accepted(env, answers[i], env.rpcOf(key).value) && Accepted(env, answers[j], env.rpcOf(key).value)
      ==> i == j
  }

  predicate Accepted<K, M(==), B, V>(env: Env<K, M, B, V>, a: Answer<M, B>, rpc: M)
  {
    a.rpc == rpc && a.line.Reply? && env.accept(rpc, a.line.body).Some?
  }

  lemma ForKeyIsUnique<K(!new), M, B, V>(env: Env<K, M, B, V>, answers: seq<Answer<M, B>>, key: K, v: V, w: V)
    requires AcceptsOnce(env, answers) && ForKey(env, answers, key, v) && ForKey(env, answers, key, w)
    ensures v == w
  {
    var rpc := env.rpcOf(key).value;
    var s :| Own(env, answers, rpc, s, v);
    var u :| Own(env, answers, rpc, u, w);
    var i :| 0 <= i < |answers| && answers[i].ticket == s && Gives(env, answers[i], rpc, v);
    var j :| 0 <= j < |answers| && answers[j].ticket == u && Gives(env, answers[j], rpc, w);
    assert Accepted(env, answers[i], rpc) && Accepted(env, answers[j], rpc);
  }

  /** In every run against a mint that accepts each request at most once, all 200 replies for one cache key carry
      the same body, and so does the cache. */
  lemma OneBodyPerKey<K(!new), M, B, V>(env: Env<K, M, B, V>, evs: seq<Event<K, M, B>>, t: nat, u: nat)
    requires Exec(env, evs).Some? && RecentAtReads(env, evs) && AcceptsOnce(env, Exec(env, evs).value.answers)
    requires t in Exec(env, evs).value.tasks && u in Exec(env, evs).value.tasks
    requires Exec(env, evs).value.tasks[t].Served? && Exec(env, evs).value.tasks[u].Served?
    ensures var st := Exec(env, evs).value;
            var (x, y) := (st.tasks[t], st.tasks[u]);
            x.cacheKey.Some? && x.cacheKey == y.cacheKey ==>
              x.value == y.value && (x.cacheKey.value in st.cache ==> st.cache[x.cacheKey.value] == x.value)
  {
    hide Exec, RecentAtReads, ForKey, Own, AcceptsOnce;
    var st := Exec(env, evs).value;
    EveryReplyIsOwn(env, evs);
    var x, y := st.tasks[t], st.tasks[u];
    if x.cacheKey.Some? && x.cacheKey == y.cacheKey {
      var k := x.cacheKey.value;
      assert Grounded(env, st.answers, x) && Grounded(env, st.answers, y);
      ServedForKey(env, st.answers, x);
      ServedForKey(env, st.answers, y);
      ForKeyIsUnique(env, st.answers, k, x.value, y.value);
      if k in st.cache {
        ForKeyIsUnique(env, st.answers, k, x.value, st.cache[k]);
      }
    }
  }

  lemma ServedForKey<K, M, B, V>(env: Env<K, M, B, V>, answers: seq<Answer<M, B>>, pc: Pc<K, M, V>)
    requires pc.Served? && pc.cacheKey.Some? && Grounded(env, answers, pc)
    ensures ForKey(env, answers, pc.cacheKey.value, pc.value)
  {
  }

  // ---- The cache is used ----

  /** What a call comes to when it reads its line: a 200 body exactly when the line is an envelope that the handler
      accepts and nothing stale was in the pipes; a cached request is then on its way into the cache. */
  lemma ReadComesTo<K, M, B, V>(env: Env<K, M, B, V>, st: State<K, M, B, V>, t: nat)
    requires Structure(st) && Recent(st) && Enabled(st, Read(t))
    ensures var (pc, line, after) := (st.tasks[t], st.stdout[0].line, Next(env, st, Read(t)).tasks[t]);
            if line.Reply? && Lag(st) == 0 && env.accept(pc.rpc, line.body).Some? then
              var v := env.accept(pc.rpc, line.body).value;
              if pc.cacheKey.Some? then after == Storing(pc.cacheKey.value, pc.rpc, pc.ticket, v)
              else after == Served(None, v, FromMint(pc.rpc, pc.ticket))
            else after == Refused
  {
    hide Structure, Lag;
    OkIff(st, t);
  }

  /** Storing puts the body into the cache before it is served. */
  lemma StoreComesTo<K, M, B, V>(env: Env<K, M, B, V>, st: State<K, M, B, V>, t: nat)
    requires Enabled(st, Store(t))
    ensures var (pc, st') := (st.tasks[t], Next(env, st, Store(t)));
            && pc.key in st'.cache && st'.cache[pc.key] == pc.value
            && st'.tasks[t] == Served(Some(pc.key), pc.value, FromMint(pc.rpc, pc.ticket))
  {
  }

  /** A look-up that hits serves the cached body at once: no id is taken, no line written, nothing else changed. One
      that misses asks the mint for what the key stands for. */
  lemma LookUpComesTo<K, M, B, V>(env: Env<K, M, B, V>, st: State<K, M, B, V>, t: nat)
    requires Enabled(st, LookUp(t))
    ensures var key := st.tasks[t].key;
            Next(env, st, LookUp(t)) == st.(tasks := st.tasks[t :=
              if key in st.cache then Served(Some(key), st.cache[key], FromCache)
              else if env.rpcOf(key).Some? then Queued(Some(key), env.rpcOf(key).value)
              else Refused])
  {
  }

  // A handler for a key that is in the cache: before its look-up, served from the cache, or gone.
  ghost predicate OnlyLooks<K, M, V>(pc: Pc<K, M, V>, key: K)
  {
    pc == Looking(key) || pc == Gone || (pc.Served? && pc.cacheKey == Some(key) && pc.origin == FromCache)
  }

  lemma {:induction false} OnlyLooksKept<K, M, B, V>(env: Env<K, M, B, V>, st: State<K, M, B, V>, ev: Event<K, M, B>,
                                                     t: nat, key: K)
    requires Enabled(st, ev) && key in st.cache && t in st.tasks && OnlyLooks(st.tasks[t], key)
    ensures var st' := Next(env, st, ev);
            key in st'.cache && t in st'.tasks && OnlyLooks(st'.tasks[t], key)
  {
  }

  lemma RunBefore<K, M, B, V>(env: Env<K, M, B, V>, evs: seq<Event<K, M, B>>, n: nat)
    requires 0 < n <= |evs| && Exec(env, evs[..n]).Some?
    ensures Exec(env, evs[..n - 1]).Some? && Enabled(Exec(env, evs[..n - 1]).value, evs[n - 1])
    ensures Exec(env, evs[..n]) == Some(Next(env, Exec(env, evs[..n - 1]).value, evs[n - 1]))
  {
    assert evs[..n][..n - 1] == evs[..n - 1];
  }

  /** NUT-19 over runs: once a body is stored under a key, no handler started later for that key ever waits for, writes
      to or reads from the mint. Its look-up serves what the cache holds. */
  lemma {:induction false} StoredKeyNeverAsksAgain<K, M, B, V>(env: Env<K, M, B, V>, evs: seq<Event<K, M, B>>, m: nat,
                                                               n: nat, t: nat, key: K)
    requires m < n <= |evs| && Exec(env, evs[..m]).Some? && Exec(env, evs[..n]).Some?
    requires key in Exec(env, evs[..m]).value.cache && evs[m] == StartCached(t, key)
    ensures var st := Exec(env, evs[..n]).value;
            && key in st.cache && t in st.tasks
            && (st.tasks[t] == Looking(key) || st.tasks[t] == Gone ||
                (st.tasks[t].Served? && st.tasks[t].cacheKey == Some(key) && st.tasks[t].origin == FromCache))
            && !st.tasks[t].Queued? && !st.tasks[t].Writing? && !st.tasks[t].Reading?
    decreases n
  {
    hide Exec;
    RunBefore(env, evs, n);
    if n == m + 1 {
    } else {
      StoredKeyNeverAsksAgain(env, evs, m, n - 1, t, key);
      hide Next, Enabled;
      OnlyLooksKept(env, Exec(env, evs[..n - 1]).value, evs[n - 1], t, key);
    }
  }

  // What was served for a key is in the cache.
  ghost predicate ServedIsStored<K, M, B, V>(st: State<K, M, B, V>)
  {
    forall t :: t in st.tasks && st.tasks[t].Served? && st.tasks[t].cacheKey.Some? ==>
      st.tasks[t].cacheKey.value in st.cache
  }

  /** Whatever 200 body was sent for a key is in the cache, in every run. */
  lemma {:induction false} EveryServedKeyIsStored<K, M, B, V>(env: Env<K, M, B, V>, evs: seq<Event<K, M, B>>)
    requires Exec(env, evs).Some?
    ensures ServedIsStored(Exec(env, evs).value)
  {
    if evs == [] {
    } else {
      var front := evs[..|evs| - 1];
      EveryServedKeyIsStored(env, front);
      hide Exec;
      ServedIsStoredKept(env, Exec(env, front).value, evs[|evs| - 1]);
    }
  }

  lemma {:induction false} ServedIsStoredKept<K, M, B, V>(env: Env<K, M, B, V>, st: State<K, M, B, V>,
                                                          ev: Event<K, M, B>)
    requires Enabled(st, ev) && ServedIsStored(st)
    ensures ServedIsStored(Next(env, st, ev))
  {
  }

  /** A client that repeats a POST that got its 200 body is answered from the cache, and the mint is not asked again. */
  lemma RepeatedPostIsServed<K, M, B, V>(env: Env<K, M, B, V>, evs: seq<Event<K, M, B>>, m: nat, n: nat, u: nat, t: nat,
                                         key: K)
    requires m < n <= |evs| && Exec(env, evs[..m]).Some? && Exec(env, evs[..n]).Some?
    requires var st := Exec(env, evs[..m]).value;
             u in st.tasks && st.tasks[u].Served? && st.tasks[u].cacheKey == Some(key)
    requires evs[m] == StartCached(t, key)
    ensures var st := Exec(env, evs[..n]).value;
            && t in st.tasks && !st.tasks[t].Queued? && !st.tasks[t].Writing? && !st.tasks[t].Reading?
            && (Enabled(st, LookUp(t)) ==>
                  key in st.cache && Next(env, st, LookUp(t)).tasks[t] == Served(Some(key), st.cache[key], FromCache))
  {
    hide Exec;
    EveryServedKeyIsStored(env, evs[..m]);
    StoredKeyNeverAsksAgain(env, evs, m, n, t, key);
  }

  // ---- When ids run out ----

  // A call that takes an id and is dropped before it writes its line.
  function Wasted<K, M, B>(t: nat, rpc: M): seq<Event<K, M, B>>
  {
    [StartPlain(t, rpc), Acquire(t), Drop(t)]
  }

  // One call abandoned after it was answered, then n calls dropped before they write.
  function Stale<K, M, B>(rpc: M, body: B, n: nat): seq<Event<K, M, B>>
  {
    if n == 0 then [StartPlain(0, rpc), Acquire(0), Send(0), MintAnswers(Reply(1, body)), Drop(0)]
    else Stale(rpc, body, n - 1) + Wasted(n, rpc)
  }

  lemma Extend<K, M, B, V>(env: Env<K, M, B, V>, evs: seq<Event<K, M, B>>, ev: Event<K, M, B>)
    requires Exec(env, evs).Some? && Enabled(Exec(env, evs).value, ev)
    ensures Exec(env, evs + [ev]) == Some(Next(env, Exec(env, evs).value, ev))
  {
    assert (evs + [ev])[..|evs + [ev]| - 1] == evs;
  }

  lemma ExtendThrice<K, M, B, V>(env: Env<K, M, B, V>, evs: seq<Event<K, M, B>>, e: Event<K, M, B>, f: Event<K, M, B>,
                                 g: Event<K, M, B>)
    requires Exec(env, evs).Some? && Enabled(Exec(env, evs).value, e)
    requires Enabled(Next(env, Exec(env, evs).value, e), f)
    requires Enabled(Next(env, Next(env, Exec(env, evs).value, e), f), g)
    ensures Exec(env, evs + [e, f, g]) == Some(Next(env, Next(env, Next(env, Exec(env, evs).value, e), f), g))
  {
    hide Exec, Enabled, Next;
    Extend(env, evs, e);
    Extend(env, evs + [e], f);
    Extend(env, evs + [e] + [f], g);
    assert evs + [e] + [f] + [g] == evs + [e, f, g];
  }

  ghost predicate AfterStale<K, M, B, V>(st: State<K, M, B, V>, rpc: M, body: B, n: nat)
  {
    && st.holder.None? && st.issued == n + 1 && st.nextId == IdOf(n + 1) && st.unsent == n
    && st.stdin == [] && st.stdout == st.answers == [Answer(0, rpc, Reply(1, body))]
    && forall t :: t in st.tasks ==> t <= n
  }

  lemma {:induction false} StaleRuns<K, M, B, V>(env: Env<K, M, B, V>, rpc: M, body: B, n: nat)
    ensures Exec(env, Stale(rpc, body, n)).Some? && AfterStale(Exec(env, Stale(rpc, body, n)).value, rpc, body, n)
  {
    hide Exec, Next, Enabled, AfterStale;
    if n == 0 {
      StaleStarts(env, rpc, body);
    } else {
      StaleRuns(env, rpc, body, n - 1);
      var evs := Stale(rpc, body, n - 1);
      OneWasted(env, Exec(env, evs).value, rpc, body, n);
      ExtendThrice(env, evs, StartPlain(n, rpc), Acquire(n), Drop(n));
    }
  }

  lemma OneWasted<K, M, B, V>(env: Env<K, M, B, V>, st: State<K, M, B, V>, rpc: M, body: B, n: nat)
    requires n > 0 && AfterStale(st, rpc, body, n - 1)
    ensures Enabled(st, StartPlain(n, rpc))
    ensures var st1 := Next(env, st, StartPlain(n, rpc));
            && Enabled(st1, Acquire(n))
            && var st2 := Next(env, st1, Acquire(n));
               Enabled(st2, Drop(n)) && AfterStale(Next(env, st2, Drop(n)), rpc, body, n)
  {
    hide IdOf;
    IdAfter(n);
  }

  lemma StaleStarts<K, M, B, V>(env: Env<K, M, B, V>, rpc: M, body: B)
    ensures Exec(env, Stale(rpc, body, 0)).Some? && AfterStale(Exec(env, Stale(rpc, body, 0)).value, rpc, body, 0)
  {
    hide Exec;
    var none: seq<Event<K, M, B>> := [];
    ExecNothing(env);
    ExtendThrice(env, none, StartPlain(0, rpc), Acquire(0), Send(0));
    var three: seq<Event<K, M, B>> := none + [StartPlain(0, rpc), Acquire(0), Send(0)];
    Extend(env, three, MintAnswers(Reply(1, body)));
    Extend(env, three + [MintAnswers(Reply(1, body))], Drop(0));
    assert three + [MintAnswers(Reply(1, body))] + [Drop(0)] == Stale(rpc, body, 0);
  }

  lemma ExecNothing<K, M, B, V>(env: Env<K, M, B, V>)
    ensures Exec(env, []) == Some(Init())
  {
  }

  /** With two replies outstanding a call can still be given another call's reply, when 2^32 - 1 calls in between
      took an id and wrote nothing: it is ids in use, not replies outstanding, that must stay below 2^32. */
  lemma StaleReplyTakenAfterWrap<K, M, B, V>(env: Env<K, M, B, V>, rpc: M, body: B, other: M, value: V)
    requires env.accept(other, body) == Some(value)
    ensures var t := ID_LIMIT;
            var evs := Stale(rpc, body, t - 1) + [StartPlain(t, other), Acquire(t), Send(t)];
            && Exec(env, evs).Some? && Exec(env, evs + [Read(t)]).Some?
            && |Exec(env, evs).value.stdin| + |Exec(env, evs).value.stdout| == 2
            && var st := Exec(env, evs + [Read(t)]).value;
               && st.answers == [Answer(0, rpc, Reply(1, body))]
               && t in st.tasks && st.tasks[t] == Served(None, value, FromMint(other, t))
  {
    hide Exec, Stale;
    var t := ID_LIMIT;
    StaleRuns<K, M, B, V>(env, rpc, body, t - 1);
    var evs := Stale(rpc, body, t - 1);
    ExtendThrice(env, evs, StartPlain(t, other), Acquire(t), Send(t));
    Extend(env, evs + [StartPlain(t, other), Acquire(t), Send(t)], Read(t));
  }

  /** The next call after an abandoned one is refused, although the mint may yet answer it. */
  lemma NextCallIsRefused<K, M, B, V>(env: Env<K, M, B, V>, rpc: M, body: B, other: M)
    ensures var evs: seq<Event<K, M, B>> :=
              Stale(rpc, body, 0) + [StartPlain(1, other), Acquire(1), Send(1)] + [Read(1)];
            && Exec(env, evs).Some?
            && var st := Exec(env, evs).value;
               1 in st.tasks && st.tasks[1] == Refused && st.stdin == [Request(1, 2, other)]
  {
    hide Exec, Stale;
    StaleRuns<K, M, B, V>(env, rpc, body, 0);
    var evs := Stale(rpc, body, 0);
    ExtendThrice(env, evs, StartPlain(1, other), Acquire(1), Send(1));
    Extend(env, evs + [StartPlain(1, other), Acquire(1), Send(1)], Read(1));
  }
}
