/**
 The same part of CBOR said as a grammar: which bytes are a head, a string, a map or an array, in the literal terms of
 section 3 of RFC 8949 and without any decoder. The decoders of module `Cbor` are proved to accept exactly this.

 A form is a relation between the input, what it means, and the input that is left.
 */
module CborFormat {
  import opened Results
  import opened Cbor

  // ---- Heads and strings ----

  // The bytes are a head of major type m with argument n, in any of the five widths.
  predicate IsHead(m: nat, n: nat, b: Bytes)
  {
    || (|b| == 1 && n < 24 && b[0] == 32 * m + n)
    || (|b| == 2 && b[0] == 32 * m + 24 && n == b[1])
    || (|b| == 3 && b[0] == 32 * m + 25 && n == 0x100 * (b[1] as int) + b[2])
    || (|b| == 5 && b[0] == 32 * m + 26
        && n == 0x100_0000 * (b[1] as int) + 0x1_0000 * (b[2] as int) + 0x100 * (b[3] as int) + b[4])
    || (|b| == 9 && b[0] == 32 * m + 27 && n == 0x1_0000_0000 * Quad(b[1..5]) + Quad(b[5..]))
  }

  function Quad(b: Bytes): nat
    requires |b| == 4
  {
    0x100_0000 * (b[0] as int) + 0x1_0000 * (b[1] as int) + 0x100 * (b[2] as int) + b[3]
  }

  ghost predicate HeadAt(m: nat, n: nat, s: Bytes, r: Bytes)
  {
    exists h :: IsHead(m, n, h) && s == h + r
  }

  ghost predicate StrAt(m: nat, b: Bytes, s: Bytes, r: Bytes)
  {
    HeadAt(m, |b|, s, b + r)
  }

  ghost predicate TextAt(b: Bytes, s: Bytes, r: Bytes) { Utf8(b) && StrAt(3, b, s, r) }

  lemma BeOfFour(b: Bytes)
    requires |b| == 4
    ensures Be(b) == Quad(b)
  {
    var b3, b2 := b[..3], b[..2];
    assert b3[..2] == b2 && b2[..1] == b[..1] && b[..1][..0] == [];
    assert Be(b[..1]) == b[0];
    assert Be(b2) == 256 * Be(b[..1]) + b[1];
    assert Be(b3) == 256 * Be(b2) + b[2];
  }

  lemma BeOfTwo(b: Bytes)
    requires |b| == 2
    ensures Be(b) == 0x100 * (b[0] as int) + b[1]
  {
    assert b[..1][..0] == [];
    assert Be(b[..1]) == b[0];
  }

  lemma BeOfEight(b: Bytes)
    requires |b| == 8
    ensures Be(b) == 0x1_0000_0000 * Quad(b[..4]) + Quad(b[4..])
  {
    BeOfFour(b[..4]);
    var b5, b6, b7 := b[..5], b[..6], b[..7];
    assert b7[..6] == b6 && b6[..5] == b5 && b5[..4] == b[..4];
    assert Be(b5) == 256 * Be(b[..4]) + b[4];
    assert Be(b6) == 256 * Be(b5) + b[5];
    assert Be(b7) == 256 * Be(b6) + b[6];
    assert Be(b) == 256 * Be(b7) + b[7];
  }

  /** A head is read exactly when it is one. */
  lemma HeadIff(m: major, s: Bytes, n: nat, r: Bytes)
    ensures (Info(m, s).Some? && Argument(Info(m, s).value, s[1..]) == Got(n, r)) <==> HeadAt(m, n, s, r)
  {
    if Info(m, s).Some? && Argument(Info(m, s).value, s[1..]) == Got(n, r) {
      ReadIsHead(m, s, n, r);
    }
    if HeadAt(m, n, s, r) {
      var h :| IsHead(m, n, h) && s == h + r;
      HeadIsRead(m, n, h, r);
    }
  }

  lemma ReadIsHead(m: major, s: Bytes, n: nat, r: Bytes)
    requires Info(m, s).Some? && Argument(Info(m, s).value, s[1..]) == Got(n, r)
    ensures HeadAt(m, n, s, r)
  {
    hide Be;
    var w := Width(Info(m, s).value).value;
    var h, arg := s[..w + 1], s[1..][..w];
    assert arg == h[1..];
    assert s == h + r;
    if w == 1 {
      BeOfOne(arg);
    } else if w == 2 {
      BeOfTwo(arg);
    } else if w == 4 {
      BeOfFour(arg);
    } else if w == 8 {
      BeOfEight(arg);
      assert arg[..4] == h[1..5] && arg[4..] == h[5..];
    }
    assert IsHead(m, n, h);
  }

  lemma BeOfOne(b: Bytes)
    requires |b| == 1
    ensures Be(b) == b[0]
  {
    assert b[..0] == [];
  }

  lemma HeadIsRead(m: major, n: nat, h: Bytes, r: Bytes)
    requires IsHead(m, n, h)
    ensures Info(m, h + r).Some? && Argument(Info(m, h + r).value, (h + r)[1..]) == Got(n, r)
  {
    hide Be;
    var s, w := h + r, |h| - 1;
    assert s[1..][..w] == h[1..] && s[1..][w..] == r;
    if w == 1 {
      BeOfOne(h[1..]);
    } else if w == 2 {
      BeOfTwo(h[1..]);
    } else if w == 4 {
      BeOfFour(h[1..]);
    } else if w == 8 {
      BeOfEight(h[1..]);
      assert h[1..][..4] == h[1..5] && h[1..][4..] == h[5..];
    }
  }

  /** The encoder writes a head, and no shorter one says the same. */
  lemma HeadIsShortest(m: major, n: nat)
    requires n < U64_LIMIT
    ensures IsHead(m, n, Head(m, n))
    ensures forall h :: IsHead(m, n, h) ==> |Head(m, n)| <= |h|
  {
    HeadInfo(m, n, []);
    assert Head(m, n) + [] == Head(m, n);
    HeadIff(m, Head(m, n), n, []);
    var h :| IsHead(m, n, h) && Head(m, n) == h + [];
    assert h + [] == h;
    forall h' | IsHead(m, n, h') ensures |Head(m, n)| <= |h'| {
      ShortestFor(m, n, h');
    }
  }

  lemma ShortestFor(m: major, n: nat, h: Bytes)
    requires n < U64_LIMIT && IsHead(m, n, h)
    ensures |Head(m, n)| <= |h|
  {
  }

  lemma StrIff(m: major, s: Bytes, b: Bytes, r: Bytes)
    ensures Str(m, s) == Got(b, r) <==> StrAt(m, b, s, r)
  {
    if Str(m, s) == Got(b, r) {
      var arg := Argument(Info(m, s).value, s[1..]);
      assert arg.rest == b + r;
      HeadIff(m, s, |b|, b + r);
    }
    if StrAt(m, b, s, r) {
      HeadIff(m, s, |b|, b + r);
      assert (b + r)[..|b|] == b && (b + r)[|b|..] == r;
    }
  }

  lemma TextIff(s: Bytes, b: Bytes, r: Bytes)
    ensures Text(s) == Got(b, r) <==> TextAt(b, s, r)
  {
    hide Utf8;
    StrIff(3, s, b, r);
  }

  // ---- Maps ----

  // What one entry does to the record so far: the record, the key, the input after it, the new record, and the rest.
  type Meaning<!A> = (A, Bytes, Bytes, A, Bytes) -> bool

  ghost predicate EntryAt<A(!new)>(means: Meaning<A>, a: A, s: Bytes, a': A, r: Bytes)
  {
    exists key, v :: TextAt(key, s, v) && means(a, key, v, a', r)
  }

  // The records and the inputs along the entries.
  ghost predicate Along<A(!new)>(means: Meaning<A>, records: seq<A>, inputs: seq<Bytes>)
  {
    && |records| == |inputs| > 0
    && forall i :: 0 <= i < |records| - 1 ==> EntryAt(means, records[i], inputs[i], records[i + 1], inputs[i + 1])
  }

  // A map (major type 5): a head with the number of entries and the entries, or 0xBF, the entries and 0xFF.
  ghost predicate MapAt<A(!new)>(means: Meaning<A>, a: A, s: Bytes, a': A, r: Bytes)
  {
    exists records: seq<A>, inputs: seq<Bytes> :: MapAlong(means, records, inputs, a, s, a', r)
  }

  ghost predicate MapAlong<A(!new)>(means: Meaning<A>, records: seq<A>, inputs: seq<Bytes>, a: A, s: Bytes, a': A,
                                    r: Bytes)
  {
    && Along(means, records, inputs)
    && var n := |records| - 1;
       && records[0] == a && records[n] == a'
       && ((HeadAt(5, n, s, inputs[0]) && inputs[n] == r) || (s == [0xBF] + inputs[0] && inputs[n] == [0xFF] + r))
  }

  // The handler of a loop does what is meant.
  ghost predicate Implements<A(!new)>(on: Handler<A>, means: Meaning<A>)
  {
    forall a, key, s, a', r :: on(a, key, s) == Got(a', r) <==> means(a, key, s, a', r)
  }

  lemma EntryIff<A(!new)>(on: Handler<A>, means: Meaning<A>, a: A, s: Bytes, a': A, r: Bytes)
    requires Implements(on, means)
    ensures EntryAt(means, a, s, a', r) <==> Text(s).Got? && on(a, Text(s).value, Text(s).rest) == Got(a', r)
  {
    if key, v :| TextAt(key, s, v) && means(a, key, v, a', r) {
      TextIff(s, key, v);
    }
    if Text(s).Got? {
      TextIff(s, Text(s).value, Text(s).rest);
    }
  }

  // An entry begins with a text string, so never with the break.
  lemma EntryIsNoBreak<A(!new)>(means: Meaning<A>, a: A, s: Bytes, a': A, r: Bytes)
    requires EntryAt(means, a, s, a', r)
    ensures s != [] && s[0] != BREAK
  {
    hide Utf8;
    var key, v :| TextAt(key, s, v) && means(a, key, v, a', r);
    var h :| IsHead(3, |key|, h) && s == h + (key + v);
  }

  // Entries read to the end give the records along them.
  lemma {:induction false} EntriesGiveAlong<A(!new)>(on: Handler<A>, means: Meaning<A>, n: Option<nat>, a: A, s: Bytes)
    returns (records: seq<A>, inputs: seq<Bytes>)
    requires KeepsWithin(on) && Implements(on, means) && Entries(on, n, a, s).Got?
    ensures Along(means, records, inputs) && records[0] == a && inputs[0] == s
    ensures var k, end := |records| - 1, Entries(on, n, a, s);
            && records[k] == end.value
            && (if n.Some? then k == n.value && inputs[k] == end.rest else inputs[k] == [BREAK] + end.rest)
    decreases if n.Some? then n.value else 0, |s|
  {
    hide Utf8;
    if n == Some(0) || (n.None? && s[0] == BREAK) {
      records, inputs := [a], [s];
    } else {
      StrBounds(3, s);
      var key := Text(s);
      var entry := on(a, key.value, key.rest);
      var more := if n.Some? then Some(n.value - 1) else None;
      var rs, ins := EntriesGiveAlong(on, means, more, entry.value, entry.rest);
      records, inputs := [a] + rs, [s] + ins;
      EntryIff(on, means, a, s, entry.value, entry.rest);
      AlongCons(means, a, s, rs, ins);
    }
  }

  lemma AlongCons<A(!new)>(means: Meaning<A>, a: A, s: Bytes, rs: seq<A>, ins: seq<Bytes>)
    requires Along(means, rs, ins) && EntryAt(means, a, s, rs[0], ins[0])
    ensures Along(means, [a] + rs, [s] + ins)
  {
    hide EntryAt;
    var records, inputs := [a] + rs, [s] + ins;
    forall i | 0 <= i < |records| - 1 ensures EntryAt(means, records[i], inputs[i], records[i + 1], inputs[i + 1]) {
      if i > 0 {
        assert records[i] == rs[i - 1] && inputs[i] == ins[i - 1];
      }
    }
  }

  // And the other way: the records along the entries are what reading them gives.
  lemma {:induction false} AlongIsRead<A(!new)>(on: Handler<A>, means: Meaning<A>, records: seq<A>, inputs: seq<Bytes>)
    requires KeepsWithin(on) && Implements(on, means) && Along(means, records, inputs)
    ensures var n := |records| - 1;
            && Entries(on, Some(n), records[0], inputs[0]) == Got(records[n], inputs[n])
            && (inputs[n] != [] && inputs[n][0] == BREAK ==>
                  Entries(on, None, records[0], inputs[0]) == Got(records[n], inputs[n][1..]))
    decreases |records|
  {
    hide Utf8, EntryAt;
    if |records| == 1 {
    } else {
      assert EntryAt(means, records[0], inputs[0], records[0 + 1], inputs[0 + 1]);
      EntryIff(on, means, records[0], inputs[0], records[1], inputs[1]);
      EntryIsNoBreak(means, records[0], inputs[0], records[1], inputs[1]);
      assert Along(means, records[1..], inputs[1..]) by {
        assert forall i :: 0 <= i < |records| - 1 ==>
                 records[1..][i] == records[i + 1] && inputs[1..][i] == inputs[i + 1];
      }
      AlongIsRead(on, means, records[1..], inputs[1..]);
    }
  }

  /** The loop over a map accepts exactly the maps, of either form, whose entries mean something in turn. */
  lemma ForeachKeyIff<A(!new)>(on: Handler<A>, means: Meaning<A>, a: A, s: Bytes, a': A, r: Bytes)
    requires KeepsWithin(on) && Implements(on, means)
    ensures ForeachKey(on, a, s) == Got(a', r) <==> MapAt(means, a, s, a', r)
  {
    if ForeachKey(on, a, s) == Got(a', r) {
      ReadIsMap(on, means, a, s, a', r);
    }
    if MapAt(means, a, s, a', r) {
      MapIsRead(on, means, a, s, a', r);
    }
  }

  lemma ReadIsMap<A(!new)>(on: Handler<A>, means: Meaning<A>, a: A, s: Bytes, a': A, r: Bytes)
    requires KeepsWithin(on) && Implements(on, means) && ForeachKey(on, a, s) == Got(a', r)
    ensures MapAt(means, a, s, a', r)
  {
    hide Entries, EntryAt, IsHead;
    var n, body := Count(5, s).value, Count(5, s).rest;
    var records, inputs := EntriesGiveAlong(on, means, n, a, body);
    if n.Some? {
      HeadIff(5, s, n.value, body);
    } else {
      assert s == [s[0]] + s[1..] && s[0] == 0xBF;
    }
    assert MapAlong(means, records, inputs, a, s, a', r);
  }

  lemma MapIsRead<A(!new)>(on: Handler<A>, means: Meaning<A>, a: A, s: Bytes, a': A, r: Bytes)
    requires KeepsWithin(on) && Implements(on, means) && MapAt(means, a, s, a', r)
    ensures ForeachKey(on, a, s) == Got(a', r)
  {
    hide Entries, EntryAt, IsHead;
    var records: seq<A>, inputs: seq<Bytes> :| MapAlong(means, records, inputs, a, s, a', r);
    var n := |records| - 1;
    AlongIsRead(on, means, records, inputs);
    if HeadAt(5, n, s, inputs[0]) && inputs[n] == r {
      HeadIff(5, s, n, inputs[0]);
    } else {
      assert ([0xBF] + inputs[0])[1..] == inputs[0] && ([BREAK] + r)[1..] == r;
    }
  }

  // ---- Arrays ----

  type Form<!T> = (T, Bytes, Bytes) -> bool

  ghost predicate Listed<T(!new)>(form: Form<T>, xs: seq<T>, inputs: seq<Bytes>)
  {
    && |inputs| == |xs| + 1
    && forall i :: 0 <= i < |xs| ==> form(xs[i], inputs[i], inputs[i + 1]) && inputs[i] != [] && inputs[i][0] != 0xFF
  }

  // An array (major type 4): a head with the number of elements and the elements, or 0x9F, the elements and 0xFF.
  ghost predicate ArrayAt<T(!new)>(form: Form<T>, xs: seq<T>, s: Bytes, r: Bytes)
  {
    exists inputs: seq<Bytes> :: ArrayAlong(form, xs, inputs, s, r)
  }

  ghost predicate ArrayAlong<T(!new)>(form: Form<T>, xs: seq<T>, inputs: seq<Bytes>, s: Bytes, r: Bytes)
  {
    && Listed(form, xs, inputs)
    && var n := |xs|;
       ((HeadAt(4, n, s, inputs[0]) && inputs[n] == r) || (s == [0x9F] + inputs[0] && inputs[n] == [0xFF] + r))
  }

  // The decoder of an element reads the form, and only inputs that do not begin with the break.
  ghost predicate Reads<T(!new)>(element: Bytes -> Step<T>, form: Form<T>)
  {
    && (forall x, s, r :: element(s) == Got(x, r) <==> form(x, s, r))
    && (forall s :: element(s).Got? ==> s != [] && s[0] != BREAK)
  }

  lemma {:induction false} ElementsGiveList<T(!new)>(element: Bytes -> Step<T>, form: Form<T>, n: Option<nat>, s: Bytes)
    returns (inputs: seq<Bytes>)
    requires Consumes(element) && Reads(element, form) && Elements(element, n, s).Got?
    ensures var end := Elements(element, n, s);
            && Listed(form, end.value, inputs) && inputs[0] == s
            && var k := |end.value|;
               if n.Some? then k == n.value && inputs[k] == end.rest else inputs[k] == [BREAK] + end.rest
    decreases if n.Some? then n.value else 0, |s|
  {
    if n == Some(0) || (n.None? && s[0] == BREAK) {
      inputs := [s];
    } else {
      var x := element(s);
      var more := if n.Some? then Some(n.value - 1) else None;
      var ins := ElementsGiveList(element, form, more, x.rest);
      inputs := [s] + ins;
      var xs := Elements(element, n, s).value;
      forall i | 0 <= i < |xs|
        ensures form(xs[i], inputs[i], inputs[i + 1]) && inputs[i] != [] && inputs[i][0] != 0xFF
      {
        if i > 0 {
          assert xs[i] == Elements(element, more, x.rest).value[i - 1];
        }
      }
    }
  }

  lemma {:induction false} ListIsRead<T(!new)>(element: Bytes -> Step<T>, form: Form<T>, xs: seq<T>, inputs: seq<Bytes>)
    requires Consumes(element) && Reads(element, form) && Listed(form, xs, inputs)
    ensures var n := |xs|;
            && Elements(element, Some(n), inputs[0]) == Got(xs, inputs[n])
            && (inputs[n] != [] && inputs[n][0] == BREAK ==>
                  Elements(element, None, inputs[0]) == Got(xs, inputs[n][1..]))
    decreases |xs|
  {
    if xs == [] {
    } else {
      assert form(xs[0], inputs[0], inputs[0 + 1]);
      assert Listed(form, xs[1..], inputs[1..]) by {
        assert forall i :: 0 <= i < |xs| - 1 ==> xs[1..][i] == xs[i + 1] && inputs[1..][i + 1] == inputs[i + 2];
      }
      ListIsRead(element, form, xs[1..], inputs[1..]);
      assert [xs[0]] + xs[1..] == xs;
    }
  }

  /** The loop over an array accepts exactly the arrays, of either form, of elements in that form. */
  lemma ArrayIff<T(!new)>(element: Bytes -> Step<T>, form: Form<T>, s: Bytes, xs: seq<T>, r: Bytes)
    requires Consumes(element) && Reads(element, form)
    ensures Array(element, s) == Got(xs, r) <==> ArrayAt(form, xs, s, r)
  {
    hide Elements, Reads, IsHead, Listed;
    if Array(element, s) == Got(xs, r) {
      var n, body := Count(4, s).value, Count(4, s).rest;
      var inputs := ElementsGiveList(element, form, n, body);
      if n.Some? {
        HeadIff(4, s, n.value, body);
      } else {
        assert s == [s[0]] + s[1..] && s[0] == 0x9F;
      }
      assert ArrayAlong(form, xs, inputs, s, r);
    }
    if ArrayAt(form, xs, s, r) {
      var inputs: seq<Bytes> :| ArrayAlong(form, xs, inputs, s, r);
      ArrayIsRead(element, form, xs, inputs, s, r);
    }
  }

  lemma ArrayIsRead<T(!new)>(element: Bytes -> Step<T>, form: Form<T>, xs: seq<T>, inputs: seq<Bytes>, s: Bytes,
                             r: Bytes)
    requires Consumes(element) && Reads(element, form) && ArrayAlong(form, xs, inputs, s, r)
    ensures Array(element, s) == Got(xs, r)
  {
    hide Elements, Reads, IsHead;
    ListIsRead(element, form, xs, inputs);
    var n := |xs|;
    if HeadAt(4, n, s, inputs[0]) && inputs[n] == r {
      HeadIff(4, s, n, inputs[0]);
    } else {
      assert ([0x9F] + inputs[0])[1..] == inputs[0] && ([BREAK] + r)[1..] == r;
    }
  }
}
