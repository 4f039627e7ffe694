/**
 The part of CBOR (section 3 of RFC 8949) that the token codec reads and writes, as the calls of
 its CBOR library behave: heads with a definite or indefinite length, unsigned integers, text and
 byte strings, and the two loops of the codec itself, `foreach_key` and `decode_array`
 (cashu-core-lite/src/token.rs).

 A decoder is a function of the input that is left; it gives a value and what is left after it.
 */
module Cbor {
  import opened Octets
  import opened Results

  type Bytes = seq<octet>

  const U64_LIMIT := 0x1_0000_0000_0000_0000

  datatype Step<+T> = Got(value: T, rest: Bytes) | Bad

  // ---- Big-endian numbers ----

  function Pow256(k: nat): (p: nat)
    ensures p >= 1
  {
    if k == 0 then 1 else 256 * Pow256(k - 1)
  }

  function BeBytes(n: nat, k: nat): (b: Bytes)
    ensures |b| == k
    decreases k
  {
    if k == 0 then [] else BeBytes(n / 256, k - 1) + [n % 256]
  }

  function Be(b: Bytes): (n: nat)
    ensures n < Pow256(|b|)
  {
    if b == [] then 0 else 256 * Be(b[..|b| - 1]) + b[|b| - 1]
  }

  lemma {:induction false} BeRoundTrip(n: nat, k: nat)
    requires n < Pow256(k)
    ensures Be(BeBytes(n, k)) == n
    decreases k
  {
    if k == 0 {
    } else {
      assert n / 256 < Pow256(k - 1);
      BeRoundTrip(n / 256, k - 1);
      assert BeBytes(n, k)[..k - 1] == BeBytes(n / 256, k - 1);
    }
  }

  lemma Powers()
    ensures Pow256(1) == 0x100 && Pow256(2) == 0x1_0000 && Pow256(4) == 0x1_0000_0000 && Pow256(8) == U64_LIMIT
  {
    assert Pow256(4) == 0x1_0000_0000;
    assert Pow256(8) == U64_LIMIT;
  }

  // ---- Heads ----

  // How many bytes follow a head with this additional information; none for the values it carries itself.
  function Width(info: nat): Option<nat>
  {
    if info < 24 then Some(0)
    else if info == 24 then Some(1)
    else if info == 25 then Some(2)
    else if info == 26 then Some(4)
    else if info == 27 then Some(8)
    else None
  }

  function Argument(info: nat, s: Bytes): Step<nat>
  {
    match Width(info)
    case None => Bad
    case Some(w) =>
      if |s| < w then Bad
      else Got(if w == 0 then info else Be(s[..w]), s[w..])
  }

  // The shortest additional information that carries `n`.
  function InfoFor(n: nat): nat
  {
    if n < 24 then n else if n < 0x100 then 24 else if n < 0x1_0000 then 25 else if n < 0x1_0000_0000 then 26 else 27
  }

  type major = m: int | 0 <= m < 8

  // What the encoder writes: major type and argument in the shortest form.
  function Head(m: major, n: nat): Bytes
    requires n < U64_LIMIT
  {
    [32 * m + InfoFor(n)] + BeBytes(n, Width(InfoFor(n)).value)
  }

  lemma ArgumentOfHead(n: nat, tail: Bytes)
    requires n < U64_LIMIT
    ensures Argument(InfoFor(n), BeBytes(n, Width(InfoFor(n)).value) + tail) == Got(n, tail)
  {
    var w := Width(InfoFor(n)).value;
    Powers();
    if w > 0 {
      BeRoundTrip(n, w);
    }
    var s := BeBytes(n, w) + tail;
    assert s[..w] == BeBytes(n, w) && s[w..] == tail;
  }

  // The item's additional information, if the item is of this major type.
  function Info(m: major, s: Bytes): Option<nat>
  {
    if s == [] || s[0] / 32 != m then None else Some(s[0] % 32)
  }

  lemma HeadInfo(m: major, n: nat, tail: Bytes)
    requires n < U64_LIMIT
    ensures var s := Head(m, n) + tail;
            Info(m, s) == Some(InfoFor(n)) && Argument(InfoFor(n), s[1..]) == Got(n, tail)
  {
    var s := Head(m, n) + tail;
    var w := Width(InfoFor(n)).value;
    assert s[1..] == BeBytes(n, w) + tail;
    ArgumentOfHead(n, tail);
  }

  lemma ArgumentBound(info: nat, s: Bytes)
    ensures Argument(info, s).Got? ==> Argument(info, s).value < U64_LIMIT && |Argument(info, s).rest| <= |s|
  {
    Powers();
  }

  // ---- Items ----

  function U64(s: Bytes): Step<nat>
  {
    match Info(0, s)
    case None => Bad
    case Some(i) => Argument(i, s[1..])
  }

  // A string of definite length; the indefinite form is not accepted.
  function Str(m: major, s: Bytes): Step<Bytes>
  {
    match Info(m, s)
    case None => Bad
    case Some(i) =>
      match Argument(i, s[1..])
      case Bad => Bad
      case Got(n, r) => if |r| < n then Bad else Got(r[..n], r[n..])
  }

  function ByteStr(s: Bytes): Step<Bytes> { Str(2, s) }

  function Text(s: Bytes): Step<Bytes>
  {
    match Str(3, s)
    case Bad => Bad
    case Got(b, r) => if Utf8(b) then Got(b, r) else Bad
  }

  // The length of an array (major type 4) or map (5); `None` announces the indefinite form.
  function Count(m: major, s: Bytes): Step<Option<nat>>
  {
    match Info(m, s)
    case None => Bad
    case Some(i) =>
      if i == 31 then Got(None, s[1..])
      else
        match Argument(i, s[1..])
        case Bad => Bad
        case Got(n, r) => Got(Some(n), r)
  }

  // Well-formed UTF-8 (section 4 of RFC 3629).
  predicate Utf8(b: Bytes)
  {
    b == [] ||
    (b[0] < 0x80 && Utf8(b[1..])) ||
    (|b| >= 2 && 0xC2 <= b[0] < 0xE0 && Tail(b[1]) && Utf8(b[2..])) ||
    (|b| >= 3 && 0xE0 <= b[0] < 0xF0 && Tail(b[1]) && Tail(b[2]) &&
     (b[0] == 0xE0 ==> b[1] >= 0xA0) && (b[0] == 0xED ==> b[1] < 0xA0) && Utf8(b[3..])) ||
    (|b| >= 4 && 0xF0 <= b[0] < 0xF5 && Tail(b[1]) && Tail(b[2]) && Tail(b[3]) &&
     (b[0] == 0xF0 ==> b[1] >= 0x90) && (b[0] == 0xF4 ==> b[1] < 0x90) && Utf8(b[4..]))
  }

  predicate Tail(c: octet) { 0x80 <= c < 0xC0 }

  // ---- Writing items in front of what follows ----

  function PutU64(n: nat, tail: Bytes): Bytes requires n < U64_LIMIT { Head(0, n) + tail }

  function PutStr(m: major, b: Bytes, tail: Bytes): Bytes requires |b| < U64_LIMIT { Head(m, |b|) + (b + tail) }

  function PutCount(m: major, n: nat, tail: Bytes): Bytes requires n < U64_LIMIT { Head(m, n) + tail }

  lemma U64RoundTrip(n: nat, tail: Bytes)
    requires n < U64_LIMIT
    ensures U64(PutU64(n, tail)) == Got(n, tail)
  {
    HeadInfo(0, n, tail);
  }

  lemma StrRoundTrip(m: major, b: Bytes, tail: Bytes)
    requires |b| < U64_LIMIT
    ensures Str(m, PutStr(m, b, tail)) == Got(b, tail)
  {
    HeadInfo(m, |b|, b + tail);
    assert (b + tail)[..|b|] == b && (b + tail)[|b|..] == tail;
  }

  lemma CountRoundTrip(m: major, n: nat, tail: Bytes)
    requires n < U64_LIMIT
    ensures Count(m, PutCount(m, n, tail)) == Got(Some(n), tail)
  {
    HeadInfo(m, n, tail);
  }

  // ---- No item grows the input, and every length read is a u64 ----

  lemma StrBounds(m: major, s: Bytes)
    ensures Str(m, s).Got? ==> |Str(m, s).value| < U64_LIMIT && |Str(m, s).rest| < |s|
  {
    if Info(m, s).Some? {
      ArgumentBound(Info(m, s).value, s[1..]);
    }
  }

  lemma U64Bounds(s: Bytes)
    ensures U64(s).Got? ==> U64(s).value < U64_LIMIT && |U64(s).rest| < |s|
  {
    if Info(0, s).Some? {
      ArgumentBound(Info(0, s).value, s[1..]);
    }
  }

  lemma CountBounds(m: major, s: Bytes)
    ensures Count(m, s).Got? ==>
              && |Count(m, s).rest| < |s|
              && (Count(m, s).value.Some? ==> Count(m, s).value.value < U64_LIMIT)
  {
    if Info(m, s).Some? {
      ArgumentBound(Info(m, s).value, s[1..]);
    }
  }

  // ---- The loops over maps and arrays ----

  const BREAK: octet := 0xFF

  // A field handler: the record so far, the key, and the input after the key.
  type Handler<!A> = (A, Bytes, Bytes) -> Step<A>

  ghost predicate KeepsWithin<A(!new)>(on: Handler<A>)
  {
    forall a, k, r :: on(a, k, r).Got? ==> |on(a, k, r).rest| <= |r|
  }

  // `n` entries, or entries up to the break.
  function Entries<A(!new)>(on: Handler<A>, n: Option<nat>, a: A, s: Bytes): Step<A>
    requires KeepsWithin(on)
    decreases if n.Some? then n.value else 0, |s|
  {
    if n == Some(0) then Got(a, s)
    else if n.None? && (s == [] || s[0] == BREAK) then (if s == [] then Bad else Got(a, s[1..]))
    else
      match Text(s)
      case Bad => Bad
      case Got(key, r) =>
        StrBounds(3, s);
        match on(a, key, r)
        case Bad => Bad
        case Got(a', r') => Entries(on, if n.Some? then Some(n.value - 1) else None, a', r')
  }

  // `foreach_key`, folding the entries of a map into a record.
  function ForeachKey<A(!new)>(on: Handler<A>, a: A, s: Bytes): Step<A>
    requires KeepsWithin(on)
  {
    match Count(5, s)
    case Bad => Bad
    case Got(n, r) => Entries(on, n, a, r)
  }

  ghost predicate Consumes<T>(element: Bytes -> Step<T>)
  {
    forall r :: element(r).Got? ==> |element(r).rest| < |r|
  }

  function Elements<T>(element: Bytes -> Step<T>, n: Option<nat>, s: Bytes): Step<seq<T>>
    requires Consumes(element)
    decreases if n.Some? then n.value else 0, |s|
  {
    if n == Some(0) then Got([], s)
    else if n.None? && (s == [] || s[0] == BREAK) then (if s == [] then Bad else Got([], s[1..]))
    else
      match element(s)
      case Bad => Bad
      case Got(x, r) =>
        match Elements(element, if n.Some? then Some(n.value - 1) else None, r)
        case Bad => Bad
        case Got(xs, r') => Got([x] + xs, r')
  }

  function Array<T>(element: Bytes -> Step<T>, s: Bytes): Step<seq<T>>
    requires Consumes(element)
  {
    match Count(4, s)
    case Bad => Bad
    case Got(n, r) => Elements(element, n, r)
  }

  /** `foreach_key` in the source: a counted loop, or one that runs to the break. */
  method ForeachKeyLoop<A(!new)>(on: Handler<A>, a: A, s: Bytes) returns (r: Step<A>)
    requires KeepsWithin(on)
    ensures r == ForeachKey(on, a, s)
  {
    var len := Count(5, s);
    if len.Bad? {
      return Bad;
    }
    match len.value
    case Some(n) => r := CountedEntries(on, n, a, len.rest);
    case None => r := EntriesToBreak(on, a, len.rest);
  }

  method CountedEntries<A(!new)>(on: Handler<A>, n: nat, a0: A, s: Bytes) returns (r: Step<A>)
    requires KeepsWithin(on)
    ensures r == Entries(on, Some(n), a0, s)
  {
    var a, d := a0, s;
    for i := 0 to n
      invariant Entries(on, Some(n - i), a, d) == Entries(on, Some(n), a0, s)
    {
      var key := Text(d);
      if key.Bad? {
        return Bad;
      }
      var entry := on(a, key.value, key.rest);
      if entry.Bad? {
        return Bad;
      }
      a, d := entry.value, entry.rest;
    }
    r := Got(a, d);
  }

  method EntriesToBreak<A(!new)>(on: Handler<A>, a0: A, s: Bytes) returns (r: Step<A>)
    requires KeepsWithin(on)
    ensures r == Entries(on, None, a0, s)
  {
    var a, d := a0, s;
    while true
      invariant Entries(on, None, a, d) == Entries(on, None, a0, s)
      decreases |d|
    {
      if d == [] {
        return Bad;
      }
      if d[0] == BREAK {
        return Got(a, d[1..]);
      }
      var key := Text(d);
      if key.Bad? {
        return Bad;
      }
      StrBounds(3, d);
      var entry := on(a, key.value, key.rest);
      if entry.Bad? {
        return Bad;
      }
      a, d := entry.value, entry.rest;
    }
  }

  // What the array decodes to once `out` has been decoded and `more` is what is left of it.
  function Collected<T>(out: seq<T>, more: Step<seq<T>>): Step<seq<T>>
  {
    match more
    case Bad => Bad
    case Got(xs, r) => Got(out + xs, r)
  }

  /** `decode_array` in the source, with the same two loops. */
  method ArrayLoop<T>(element: Bytes -> Step<T>, s: Bytes) returns (r: Step<seq<T>>)
    requires Consumes(element)
    ensures r == Array(element, s)
  {
    var len := Count(4, s);
    if len.Bad? {
      return Bad;
    }
    match len.value
    case Some(n) => r := CountedElements(element, n, len.rest);
    case None => r := ElementsToBreak(element, len.rest);
  }

  method CountedElements<T>(element: Bytes -> Step<T>, n: nat, s: Bytes) returns (r: Step<seq<T>>)
    requires Consumes(element)
    ensures r == Elements(element, Some(n), s)
  {
    var out, d := [], s;
    ghost var all := Elements(element, Some(n), s);
    assert all.Got? ==> [] + all.value == all.value;
    for i := 0 to n
      invariant Collected(out, Elements(element, Some(n - i), d)) == all
    {
      var x := element(d);
      if x.Bad? {
        return Bad;
      }
      CollectOne(out, x.value, Elements(element, Some(n - i - 1), x.rest));
      out, d := out + [x.value], x.rest;
    }
    assert out + [] == out;
    r := Got(out, d);
  }

  method ElementsToBreak<T>(element: Bytes -> Step<T>, s: Bytes) returns (r: Step<seq<T>>)
    requires Consumes(element)
    ensures r == Elements(element, None, s)
  {
    var out, d := [], s;
    ghost var all := Elements(element, None, s);
    assert all.Got? ==> [] + all.value == all.value;
    while true
      invariant Collected(out, Elements(element, None, d)) == all
      decreases |d|
    {
      if d == [] {
        return Bad;
      }
      if d[0] == BREAK {
        assert out + [] == out;
        return Got(out, d[1..]);
      }
      var x := element(d);
      if x.Bad? {
        return Bad;
      }
      CollectOne(out, x.value, Elements(element, None, x.rest));
      out, d := out + [x.value], x.rest;
    }
  }

  lemma CollectOne<T>(out: seq<T>, x: T, more: Step<seq<T>>)
    ensures Collected(out + [x], more) == Collected(out, Collected([x], more))
  {
    if more.Got? {
      assert (out + [x]) + more.value == out + ([x] + more.value);
    }
  }

  // ---- What the loops keep ----

  lemma {:induction false} EntriesWithin<A(!new)>(on: Handler<A>, n: Option<nat>, a: A, s: Bytes)
    requires KeepsWithin(on)
    ensures Entries(on, n, a, s).Got? ==> |Entries(on, n, a, s).rest| <= |s|
    decreases if n.Some? then n.value else 0, |s|
  {
    if n != Some(0) && Text(s).Got? {
      StrBounds(3, s);
      var key := Text(s);
      var entry := on(a, key.value, key.rest);
      if entry.Got? {
        EntriesWithin(on, if n.Some? then Some(n.value - 1) else None, entry.value, entry.rest);
      }
    }
  }

  lemma ForeachKeyConsumes<A(!new)>(on: Handler<A>, a: A, s: Bytes)
    requires KeepsWithin(on)
    ensures ForeachKey(on, a, s).Got? ==> |ForeachKey(on, a, s).rest| < |s|
  {
    CountBounds(5, s);
    if Count(5, s).Got? {
      EntriesWithin(on, Count(5, s).value, a, Count(5, s).rest);
    }
  }

  // A property of records that every entry keeps, on inputs shorter than `limit`.
  ghost predicate Keeps<A(!new)>(on: Handler<A>, P: A -> bool, limit: nat)
  {
    forall a, k, r :: |r| < limit && P(a) && on(a, k, r).Got? ==> P(on(a, k, r).value)
  }

  lemma {:induction false} EntriesKeep<A(!new)>(on: Handler<A>, P: A -> bool, limit: nat, n: Option<nat>, a: A,
                                                s: Bytes)
    requires KeepsWithin(on) && Keeps(on, P, limit) && P(a) && |s| < limit
    ensures Entries(on, n, a, s).Got? ==> P(Entries(on, n, a, s).value)
    decreases if n.Some? then n.value else 0, |s|
  {
    hide Utf8, Str;
    if n != Some(0) && Text(s).Got? {
      StrBounds(3, s);
      var key := Text(s);
      var entry := on(a, key.value, key.rest);
      if entry.Got? {
        EntriesKeep(on, P, limit, if n.Some? then Some(n.value - 1) else None, entry.value, entry.rest);
      }
    }
  }

  lemma ForeachKeyKeeps<A(!new)>(on: Handler<A>, P: A -> bool, limit: nat, a: A, s: Bytes)
    requires KeepsWithin(on) && Keeps(on, P, limit) && P(a) && |s| < limit
    ensures ForeachKey(on, a, s).Got? ==> P(ForeachKey(on, a, s).value)
  {
    CountBounds(5, s);
    if Count(5, s).Got? {
      EntriesKeep(on, P, limit, Count(5, s).value, a, Count(5, s).rest);
    }
  }

  // Every element has property P when each one decoded from an input shorter than `limit` has it.
  lemma {:induction false} ElementsKeep<T>(element: Bytes -> Step<T>, P: T -> bool, limit: nat, n: Option<nat>,
                                           s: Bytes)
    requires Consumes(element) && |s| < limit
    requires forall r :: |r| < limit && element(r).Got? ==> P(element(r).value)
    ensures var r := Elements(element, n, s);
            r.Got? ==> |r.value| + |r.rest| <= |s| && forall i :: 0 <= i < |r.value| ==> P(r.value[i])
    decreases if n.Some? then n.value else 0, |s|
  {
    if n != Some(0) && element(s).Got? {
      ElementsKeep(element, P, limit, if n.Some? then Some(n.value - 1) else None, element(s).rest);
    }
  }

  lemma ArrayKeeps<T>(element: Bytes -> Step<T>, P: T -> bool, limit: nat, s: Bytes)
    requires Consumes(element) && |s| < limit
    requires forall r :: |r| < limit && element(r).Got? ==> P(element(r).value)
    ensures var r := Array(element, s);
            r.Got? ==> |r.value| + |r.rest| < |s| && forall i :: 0 <= i < |r.value| ==> P(r.value[i])
  {
    CountBounds(4, s);
    if Count(4, s).Got? {
      ElementsKeep(element, P, limit, Count(4, s).value, Count(4, s).rest);
    }
  }

  // ---- Reading back what was written ----

  /** One written entry, whose value the handler reads back, is one turn of the loop. */
  lemma EntryRead<A(!new)>(on: Handler<A>, n: nat, a: A, key: Bytes, body: Bytes, a': A, tail: Bytes)
    requires KeepsWithin(on) && Utf8(key) && |key| < U64_LIMIT
    requires on(a, key, body) == Got(a', tail)
    ensures Entries(on, Some(n + 1), a, PutStr(3, key, body)) == Entries(on, Some(n), a', tail)
  {
    StrRoundTrip(3, key, body);
  }

  lemma EntriesDone<A(!new)>(on: Handler<A>, a: A, s: Bytes)
    requires KeepsWithin(on)
    ensures Entries(on, Some(0), a, s) == Got(a, s)
  {
  }

  lemma MapRead<A(!new)>(on: Handler<A>, n: nat, a: A, tail: Bytes)
    requires KeepsWithin(on) && n < U64_LIMIT
    ensures ForeachKey(on, a, PutCount(5, n, tail)) == Entries(on, Some(n), a, tail)
  {
    CountRoundTrip(5, n, tail);
  }

  lemma ArrayRead<T>(element: Bytes -> Step<T>, n: nat, tail: Bytes)
    requires Consumes(element) && n < U64_LIMIT
    ensures Array(element, PutCount(4, n, tail)) == Elements(element, Some(n), tail)
  {
    CountRoundTrip(4, n, tail);
  }

  lemma ElementRead<T>(element: Bytes -> Step<T>, n: nat, s: Bytes, x: T, r: Bytes, xs: seq<T>, tail: Bytes)
    requires Consumes(element) && element(s) == Got(x, r)
    requires Elements(element, Some(n), r) == Got(xs, tail)
    ensures Elements(element, Some(n + 1), s) == Got([x] + xs, tail)
  {
  }
}
