/** The info strings of game/q_shared.c: keys and values in one string, each behind a backslash. */
module Info {
  import opened Bytes

  /** The characters of a C string, without its terminator. */
  type Text = seq<byte>

  const MAX_INFO_KEY := 64
  const MAX_INFO_STRING := 512
  const BACKSLASH: byte := 92
  const SEMICOLON: byte := 59
  const QUOTE: byte := 34

  // ---------------------------------------------------------------------------------------------
  // On any string

  /** The end of the run of characters from `i` up to the next backslash or the end of the string. */
  function RunEnd(s: Text, i: nat): (j: nat)
    requires i <= |s|
    ensures i <= j <= |s| && BACKSLASH !in s[i..j] && (j < |s| ==> s[j] == BACKSLASH)
    decreases |s| - i
  {
    if i == |s| || s[i] == BACKSLASH then i
    else
      var j := RunEnd(s, i + 1);
      assert s[i..j] == [s[i]] + s[i + 1..j];
      j
  }

  lemma {:induction false} RunEndUnique(s: Text, i: nat, j: nat)
    requires i <= j <= |s| && BACKSLASH !in s[i..j] && (j < |s| ==> s[j] == BACKSLASH)
    ensures RunEnd(s, i) == j
    decreases j - i
  {
    if i < j {
      assert s[i..j] == [s[i]] + s[i + 1..j];
      RunEndUnique(s, i + 1, j);
    }
  }

  function Start(s: Text, at: nat): nat {
    if at < |s| && s[at] == BACKSLASH then at + 1 else at
  }

  function ValueFrom(s: Text, i: nat, key: Text): Text
    requires i <= |s|
    decreases |s| - i
  {
    var j := RunEnd(s, i);
    if j == |s| then []
    else
      var k := RunEnd(s, j + 1);
      if s[i..j] == key then s[j + 1..k]
      else if k == |s| then []
      else ValueFrom(s, k + 1, key)
  }

  function HasFrom(s: Text, i: nat, key: Text): bool
    requires i <= |s|
    decreases |s| - i
  {
    var j := RunEnd(s, i);
    if j == |s| then false
    else
      var k := RunEnd(s, j + 1);
      s[i..j] == key || (k < |s| && HasFrom(s, k + 1, key))
  }

  function RemoveFrom(s: Text, start: nat, key: Text): (r: Text)
    requires start <= |s|
    ensures |r| <= |s|
    decreases |s| - start
  {
    var i := Start(s, start);
    var j := RunEnd(s, i);
    if j == |s| then s
    else
      var k := RunEnd(s, j + 1);
      if s[i..j] == key then s[..start] + s[k..]
      else if k == |s| then s
      else RemoveFrom(s, k, key)
  }

  /** One round of the search for the pair to remove. */
  lemma RemoveRound(s: Text, start: nat, key: Text)
    requires start <= |s|
    ensures Start(s, start) == if start < |s| && s[start] == BACKSLASH then start + 1 else start
    ensures var i := Start(s, start);
      var j := RunEnd(s, i);
      && start <= i <= j <= |s| && (j == |s| ==> RemoveFrom(s, start, key) == s)
      && (j < |s| ==>
            var k := RunEnd(s, j + 1);
            j < k <= |s| && RemoveFrom(s, start, key) ==
              if s[i..j] == key then s[..start] + s[k..] else if k == |s| then s else RemoveFrom(s, k, key))
  {
    hide RunEnd;
  }

  function Removed(s: Text, key: Text): (r: Text)
    ensures |r| <= |s|
  {
    if BACKSLASH in key then s else RemoveFrom(s, 0, key)
  }

  lemma RemovedUnless(s: Text, key: Text)
    ensures BACKSLASH !in key ==> Removed(s, key) == RemoveFrom(s, 0, key)
    ensures BACKSLASH in key ==> Removed(s, key) == s
  {
  }

  predicate Printable(c: byte) {
    32 <= c < 127
  }

  /** The characters that survive: the high bit is stripped, then what is not printable dropped. */
  function Ascii(s: Text): (r: Text)
    ensures |r| <= |s|
  {
    if s == [] then []
    else
      var c := s[|s| - 1] % 128;
      Ascii(s[..|s| - 1]) + if Printable(c) then [c] else []
  }

  lemma AsciiStep(s: Text, c: byte)
    ensures Ascii(s + [c]) == Ascii(s) + if Printable(c % 128) then [c % 128] else []
  {
    assert (s + [c])[..|s|] == s;
  }

  predicate Allowed(key: Text, value: Text) {
    && BACKSLASH !in key + value && SEMICOLON !in key + value && QUOTE !in key + value
    && |key| < MAX_INFO_KEY && |value| < MAX_INFO_KEY
  }

  function Entered(s: Text, key: Text, value: Text): (r: Text) {
    var rest := Removed(s, key);
    var more := [BACKSLASH] + key + [BACKSLASH] + value;
    if !Allowed(key, value) then s
    else if value == [] || |more| + |rest| > MAX_INFO_STRING - 1 then rest
    else rest + Ascii(more)
  }

  lemma StringStep(s: Text, i: nat, key: Text)
    requires i <= |s| && RunEnd(s, i) < |s|
    ensures var j := RunEnd(s, i);
      var k := RunEnd(s, j + 1);
      && ValueFrom(s, i, key) == (if s[i..j] == key then s[j + 1..k] else if k == |s| then []
                                  else ValueFrom(s, k + 1, key))
      && HasFrom(s, i, key) == (s[i..j] == key || (k < |s| && HasFrom(s, k + 1, key)))
  {
  }

  lemma StringEnds(s: Text, i: nat, key: Text)
    requires i <= |s|
    ensures RunEnd(s, i) == |s| ==> ValueFrom(s, i, key) == [] && !HasFrom(s, i, key)
  {
  }

  // ---------------------------------------------------------------------------------------------
  // The code

  /** The loop that copies a run of characters. */
  method CopyRun(s: Text, start: nat) returns (run: Text, i: nat)
    requires start <= |s|
    ensures i == RunEnd(s, start) && run == s[start..i]
  {
    run, i := [], start;
    while i < |s| && s[i] != BACKSLASH
      invariant start <= i <= |s| && run == s[start..i] && BACKSLASH !in run
    {
      run := run + [s[i]];
      i := i + 1;
    }
    RunEndUnique(s, start, i);
  }

  lemma StartIs(s: Text)
    ensures Start(s, 0) == (if |s| > 0 && s[0] == BACKSLASH then 1 else 0) <= |s|
  {
  }

  /** Info_ValueForKey. */
  method ValueForKey(s: Text, key: Text) returns (value: Text)
    ensures value == ValueFrom(s, Start(s, 0), key)
  {
    StartIs(s);
    hide *;
    var i: nat := if |s| > 0 && s[0] == BACKSLASH then 1 else 0;
    while true
      invariant i <= |s| && ValueFrom(s, i, key) == ValueFrom(s, Start(s, 0), key)
      decreases |s| - i
    {
      StringEnds(s, i, key);
      var pkey, j := CopyRun(s, i);
      if j == |s| {
        return [];
      }
      StringStep(s, i, key);
      var found, k := CopyRun(s, j + 1);
      if key == pkey {
        return found;
      }
      if k == |s| {
        return [];
      }
      i := k + 1;
    }
  }

  /** Info_KeyExists. */
  method KeyExists(s: Text, key: Text) returns (r: bool)
    ensures r == HasFrom(s, Start(s, 0), key)
  {
    StartIs(s);
    hide *;
    var i: nat := if |s| > 0 && s[0] == BACKSLASH then 1 else 0;
    while true
      invariant i <= |s| && HasFrom(s, i, key) == HasFrom(s, Start(s, 0), key)
      decreases |s| - i
    {
      StringEnds(s, i, key);
      var pkey, j := CopyRun(s, i);
      if j == |s| {
        return false;
      }
      StringStep(s, i, key);
      var _, k := CopyRun(s, j + 1);
      if key == pkey {
        return true;
      }
      if k == |s| {
        return false;
      }
      i := k + 1;
    }
  }

  /** A character buffer of MAX_INFO_STRING bytes that holds an info string. */
  class Buffer {
    var text: Text

    constructor ()
      ensures text == []
    {
      text := [];
    }

    /** Info_RemoveKey. */
    method RemoveKey(key: Text)
      modifies this
      ensures text == Removed(old(text), key)
    {
      hide *;
      RemovedUnless(text, key);
      if BACKSLASH in key {
        return;
      }
      var s := 0;
      while true
        invariant s <= |text| && text == old(text) && RemoveFrom(text, s, key) == RemoveFrom(text, 0, key)
        decreases |text| - s
      {
        var start := s;
        RemoveRound(text, s, key);
        if s < |text| && text[s] == BACKSLASH {
          s := s + 1;
        }
        var pkey, j := CopyRun(text, s);
        if j == |text| {
          return;
        }
        var _, k := CopyRun(text, j + 1);
        if key == pkey {
          text := text[..start] + text[k..];
          return;
        }
        if k == |text| {
          return;
        }
        s := k;
      }
    }

    /** The loop of Info_SetValueForKey that copies the printable characters. */
    method AppendAscii(more: Text)
      modifies this
      ensures text == old(text) + Ascii(more)
    {
      ghost var was := text;
      var i := 0;
      assert Ascii(more[..0]) == [];
      while i < |more|
        invariant 0 <= i <= |more| && text == was + Ascii(more[..i])
      {
        assert more[..i + 1] == more[..i] + [more[i]];
        AsciiStep(more[..i], more[i]);
        hide Ascii;
        var c := more[i] % 128;
        if 32 <= c < 127 {
          text := text + [c];
        }
        i := i + 1;
      }
      assert more[..i] == more;
    }

    /** Info_SetValueForKey. */
    method SetValueForKey(key: Text, value: Text)
      modifies this
      ensures text == Entered(old(text), key, value)
    {
      if BACKSLASH in key || BACKSLASH in value {
        return;
      }
      if SEMICOLON in key || SEMICOLON in value {
        return;
      }
      if QUOTE in key || QUOTE in value {
        return;
      }
      if |key| > MAX_INFO_KEY - 1 || |value| > MAX_INFO_KEY - 1 {
        return;
      }
      RemoveKey(key);
      if value == [] {
        return;
      }
      var more := [BACKSLASH] + key + [BACKSLASH] + value;
      if |more| + |text| > MAX_INFO_STRING - 1 {
        return;
      }
      AppendAscii(more);
    }
  }

  // ---------------------------------------------------------------------------------------------
  // Well-formed info strings

  datatype Pair = Pair(key: Text, value: Text)

  function PairText(p: Pair): Text {
    [BACKSLASH] + p.key + [BACKSLASH] + p.value
  }

  function Encode(pairs: seq<Pair>): Text {
    if pairs == [] then [] else PairText(pairs[0]) + Encode(pairs[1..])
  }

  predicate PairOk(p: Pair) {
    BACKSLASH !in p.key && BACKSLASH !in p.value
  }

  predicate PairsOk(pairs: seq<Pair>) {
    forall p <- pairs :: PairOk(p)
  }

  predicate DistinctKeys(pairs: seq<Pair>) {
    forall i, j :: 0 <= i < j < |pairs| ==> pairs[i].key != pairs[j].key
  }

  /** The value of the first pair with the key, or nothing. */
  function Lookup(pairs: seq<Pair>, key: Text): Text {
    if pairs == [] then [] else if pairs[0].key == key then pairs[0].value else Lookup(pairs[1..], key)
  }

  predicate HasKey(pairs: seq<Pair>, key: Text) {
    exists p <- pairs :: p.key == key
  }

  /** The pairs without the first that has the key. */
  function Dropped(pairs: seq<Pair>, key: Text): seq<Pair> {
    if pairs == [] then [] else if pairs[0].key == key then pairs[1..] else [pairs[0]] + Dropped(pairs[1..], key)
  }

  lemma Cut<T>(a: seq<T>, b: seq<T>)
    ensures (a + b)[..|a|] == a && (a + b)[|a|..] == b
  {
  }

  lemma Regroup<T>(a: seq<T>, x: T, k: seq<T>, y: T, v: seq<T>, r: seq<T>)
    ensures a + ([x] + k + [y] + v + r) == a + ([x] + (k + ([y] + (v + r))))
    ensures a + ([x] + k + [y] + v + r) == (a + ([x] + k + [y] + v)) + r
  {
    assert [x] + k + [y] + v + r == [x] + (k + ([y] + (v + r)));
  }

  lemma Middle<T>(a: seq<T>, b: seq<T>, c: seq<T>)
    ensures (a + (b + c))[|a|..|a| + |b|] == b && (a + (b + c))[|a| + |b|..] == c
    ensures forall n: nat :: n <= |b + c| ==> (a + (b + c))[|a| + n..] == (b + c)[n..]
  {
    assert a + (b + c) == (a + b) + c;
  }

  lemma KeyPlace(before: Text, p: Pair, tail: Text)
    ensures var s := before + (PairText(p) + tail);
      var i := |before| + 1;
      i + |p.key| < |s| && s[|before|] == BACKSLASH && s[i..i + |p.key|] == p.key && s[i + |p.key|] == BACKSLASH
  {
    var s := before + (PairText(p) + tail);
    Regroup(before, BACKSLASH, p.key, BACKSLASH, p.value, tail);
    Middle(before + [BACKSLASH], p.key, [BACKSLASH] + (p.value + tail));
    assert s == (before + [BACKSLASH]) + (p.key + ([BACKSLASH] + (p.value + tail)));
  }

  lemma ValuePlace(before: Text, p: Pair, tail: Text)
    ensures var s := before + (PairText(p) + tail);
      var j := |before| + 1 + |p.key|;
      var k := j + 1 + |p.value|;
      k <= |s| && s[j + 1..k] == p.value && s[k..] == tail
  {
    var front := before + [BACKSLASH] + p.key + [BACKSLASH];
    assert before + (PairText(p) + tail) == front + (p.value + tail) by {
      Regroup(before, BACKSLASH, p.key, BACKSLASH, p.value, tail);
    }
    hide *;
    assert |front| == |before| + 1 + |p.key| + 1;
    Middle(front, p.value, tail);
  }

  lemma PairLegal(p: Pair)
    requires PairOk(p)
    ensures BACKSLASH !in p.key && BACKSLASH !in p.value
  {
  }

  lemma EncodeStarts(pairs: seq<Pair>)
    ensures pairs == [] <==> Encode(pairs) == []
    ensures pairs != [] ==> Encode(pairs)[0] == BACKSLASH
  {
  }

  /** The pairs that a lookup reads in any string from `i` on. What is behind the last value run counts
      as nothing. */
  function PairsOf(s: Text, i: nat): seq<Pair>
    requires i <= |s|
    decreases |s| - i
  {
    var j := RunEnd(s, i);
    if j == |s| then []
    else
      var k := RunEnd(s, j + 1);
      [Pair(s[i..j], s[j + 1..k])] + PairsBehind(s, k)
  }

  /** The same at a backslash, or at the end of the string. */
  function PairsBehind(s: Text, k: nat): seq<Pair>
    requires k <= |s|
    decreases |s| - k
  {
    if k == |s| then [] else PairsOf(s, k + 1)
  }

  lemma PairsStep(s: Text, i: nat)
    requires i <= |s|
    ensures var j := RunEnd(s, i);
      && (j == |s| ==> PairsOf(s, i) == [])
      && (j < |s| ==>
            var k := RunEnd(s, j + 1);
            PairsOf(s, i) == [Pair(s[i..j], s[j + 1..k])] + PairsBehind(s, k))
  {
    hide RunEnd;
  }

  lemma BehindIs(s: Text, k: nat)
    requires k <= |s|
    ensures PairsBehind(s, k) == if k == |s| then [] else PairsOf(s, k + 1)
  {
  }

  lemma LookupFirst(p: Pair, rest: seq<Pair>, key: Text)
    ensures Lookup([p] + rest, key) == if p.key == key then p.value else Lookup(rest, key)
    ensures HasKey([p] + rest, key) == (p.key == key || HasKey(rest, key))
    ensures Lookup([], key) == [] && !HasKey([], key)
  {
    assert ([p] + rest)[1..] == rest;
  }

  lemma PairsNone(s: Text, i: nat)
    requires i <= |s| && RunEnd(s, i) == |s|
    ensures PairsOf(s, i) == []
  {
  }

  lemma OneRun(key: Text)
    requires BACKSLASH !in key
    ensures PairsOf(key, 0) == []
  {
    RunEndUnique(key, 0, |key|);
    PairsNone(key, 0);
  }

  lemma StepAt(s: Text, i: nat, j: nat, k: nat, p: Pair)
    requires i <= j < k <= |s| && RunEnd(s, i) == j && RunEnd(s, j + 1) == k
    requires s[i..j] == p.key && s[j + 1..k] == p.value
    ensures PairsOf(s, i) == [p] + PairsBehind(s, k)
  {
    hide *;
    PairsStep(s, i);
    assert Pair(s[i..j], s[j + 1..k]) == p;
  }

  lemma OnePair(key: Text, value: Text, tail: Text)
    requires BACKSLASH !in key && BACKSLASH !in value && (tail == [] || tail[0] == BACKSLASH)
    ensures var s, k := key + [BACKSLASH] + value + tail, |key| + 1 + |value|;
      k <= |s| && PairsOf(s, 0) == [Pair(key, value)] + PairsBehind(s, k)
  {
    var s, j, k := key + [BACKSLASH] + value + tail, |key|, |key| + 1 + |value|;
    assert s[0..j] == key && s[j + 1..k] == value && s[k..] == tail;
    assert k < |s| ==> s[k] == s[k..][0];
    RunEndUnique(s, 0, j);
    RunEndUnique(s, j + 1, k);
    hide *;
    StepAt(s, 0, j, k, Pair(key, value));
  }

  lemma BarIs()
    ensures BACKSLASH == 92
  {
  }

  lemma Regrouping(key: Text, value: Text, rest: Text)
    ensures key + [92] + value + [] == key + [92] + value
    ensures key + [92] + value + ([92] + rest) == key + [92] + value + [92] + rest
    ensures |key + [92] + value| == |key| + 1 + |value| && |key + [92] + value + [92]| == |key| + 1 + |value| + 1
  {
  }

  lemma RunShift(a: Text, s: Text, i: nat)
    requires i <= |s|
    ensures RunEnd(a + s, |a| + i) == |a| + RunEnd(s, i)
    ensures (a + s)[|a| + i..|a| + RunEnd(s, i)] == s[i..RunEnd(s, i)]
  {
    hide *;
    var j := RunEnd(s, i);
    assert (a + s)[|a| + i..|a| + j] == s[i..j];
    RunEndUnique(a + s, |a| + i, |a| + j);
  }

  lemma ShiftStep(a: Text, s: Text, i: nat, j: nat, k: nat)
    requires i <= j < k <= |s| && RunEnd(s, i) == j && RunEnd(s, j + 1) == k
    requires PairsBehind(a + s, |a| + k) == PairsBehind(s, k)
    ensures PairsOf(a + s, |a| + i) == PairsOf(s, i)
  {
    hide *;
    var p := Pair(s[i..j], s[j + 1..k]);
    RunShift(a, s, i);
    RunShift(a, s, j + 1);
    StepAt(s, i, j, k, p);
    StepAt(a + s, |a| + i, |a| + j, |a| + k, p);
  }

  /** What stands before the place where reading begins does not matter. */
  lemma {:induction false} PairsShift(a: Text, s: Text, i: nat)
    requires i <= |s|
    ensures PairsOf(a + s, |a| + i) == PairsOf(s, i)
    decreases |s| - i
  {
    hide *;
    var j := RunEnd(s, i);
    if j == |s| {
      RunShift(a, s, i);
      PairsNone(s, i);
      PairsNone(a + s, |a| + i);
    } else {
      var k := RunEnd(s, j + 1);
      BehindIs(s, k);
      BehindIs(a + s, |a| + k);
      if k < |s| {
        PairsShift(a, s, k + 1);
      }
      ShiftStep(a, s, i, j, k);
    }
  }

  /** Up to the first backslash stands a key, up to the next one its value, and behind that the next pair;
      a key without a backslash behind it is none. */
  lemma PairsLaws(key: Text, value: Text, rest: Text)
    requires BACKSLASH !in key && BACKSLASH !in value
    ensures PairsOf(key, 0) == []
    ensures PairsOf(key + [92] + value, 0) == [Pair(key, value)]
    ensures PairsOf(key + [92] + value + [92] + rest, 0) == [Pair(key, value)] + PairsOf(rest, 0)
  {
    hide *;
    BarIs();
    Regrouping(key, value, rest);
    OneRun(key);
    OnePair(key, value, []);
    OnePair(key, value, [92] + rest);
    BehindIs(key + [92] + value, |key| + 1 + |value|);
    BehindIs(key + [92] + value + [92] + rest, |key| + 1 + |value|);
    PairsShift(key + [92] + value + [92], rest, 0);
    assert [Pair(key, value)] + [] == [Pair(key, value)];
  }

  /** What lookup finds in any string is what the pairs say that it reads there. */
  lemma {:induction false} LookupReads(s: Text, i: nat, key: Text)
    requires i <= |s|
    ensures ValueFrom(s, i, key) == Lookup(PairsOf(s, i), key)
    ensures HasFrom(s, i, key) == HasKey(PairsOf(s, i), key)
    decreases |s| - i
  {
    hide *;
    var j := RunEnd(s, i);
    PairsStep(s, i);
    StringEnds(s, i, key);
    LookupFirst(Pair([], []), [], key);
    if j < |s| {
      StringStep(s, i, key);
      var k := RunEnd(s, j + 1);
      LookupFirst(Pair(s[i..j], s[j + 1..k]), PairsBehind(s, k), key);
      BehindIs(s, k);
      if k < |s| {
        LookupReads(s, k + 1, key);
      }
    }
  }

  lemma BehindShift(a: Text, s: Text)
    ensures PairsBehind(a + s, |a|) == PairsBehind(s, 0)
  {
    hide *;
    BehindIs(a + s, |a|);
    BehindIs(s, 0);
    if s != [] {
      PairsShift(a, s, 1);
    }
  }

  lemma BehindStep(s: Text, at: nat, j: nat, k: nat, p: Pair)
    requires at < j < k <= |s| && RunEnd(s, at + 1) == j && RunEnd(s, j + 1) == k
    requires s[at + 1..j] == p.key && s[j + 1..k] == p.value
    ensures PairsBehind(s, at) == [p] + PairsBehind(s, k)
  {
    hide *;
    BehindIs(s, at);
    StepAt(s, at + 1, j, k, p);
  }

  lemma Grouped<T>(a: seq<T>, b: seq<T>, c: seq<T>)
    ensures (a + b) + c == a + (b + c)
  {
  }

  /** A pair read at its place in a string, with nothing or a further backslash behind it. */
  lemma PairRead(before: Text, p: Pair, tail: Text)
    requires PairOk(p) && (tail == [] || tail[0] == BACKSLASH)
    ensures var s := before + (PairText(p) + tail);
      var i := |before| + 1;
      var j := i + |p.key|;
      var k := j + 1 + |p.value|;
      && k <= |s| && s[|before|] == BACKSLASH && RunEnd(s, i) == j < |s| && s[i..j] == p.key
      && RunEnd(s, j + 1) == k && s[j + 1..k] == p.value
  {
    var s := before + (PairText(p) + tail);
    var i := |before| + 1;
    var j := i + |p.key|;
    var k := j + 1 + |p.value|;
    hide *;
    KeyPlace(before, p, tail);
    ValuePlace(before, p, tail);
    assert k < |s| ==> s[k] == s[k..][0];
    PairLegal(p);
    RunEndUnique(s, i, j);
    RunEndUnique(s, j + 1, k);
  }

  lemma PairLength(before: Text, p: Pair)
    ensures |before + PairText(p)| == |before| + 1 + |p.key| + 1 + |p.value|
  {
  }

  lemma PairInFront(before: Text, p: Pair, tail: Text)
    requires PairOk(p) && (tail == [] || tail[0] == BACKSLASH)
    ensures var s, k := before + (PairText(p) + tail), |before| + 1 + |p.key| + 1 + |p.value|;
      |before| < k <= |s| && PairsBehind(s, |before|) == [p] + PairsBehind(s, k)
  {
    hide *;
    PairRead(before, p, tail);
    var j := |before| + 1 + |p.key|;
    BehindStep(before + (PairText(p) + tail), |before|, j, j + 1 + |p.value|, p);
  }

  lemma PairAhead(before: Text, p: Pair, tail: Text)
    requires PairOk(p) && (tail == [] || tail[0] == BACKSLASH)
    ensures PairsBehind(before + (PairText(p) + tail), |before|) ==
      [p] + PairsBehind((before + PairText(p)) + tail, |before + PairText(p)|)
  {
    hide *;
    PairInFront(before, p, tail);
    PairLength(before, p);
    Grouped(before, PairText(p), tail);
  }

  lemma PairsSplit(pairs: seq<Pair>)
    requires pairs != [] && PairsOk(pairs)
    ensures PairOk(pairs[0]) && PairsOk(pairs[1..])
  {
  }

  lemma EncodeFirst(pairs: seq<Pair>)
    requires pairs != []
    ensures Encode(pairs) == PairText(pairs[0]) + Encode(pairs[1..])
  {
  }

  lemma NoneAhead(before: Text, tail: Text)
    ensures before + (Encode([]) + tail) == before + tail
  {
    assert Encode([]) + tail == tail;
  }

  /** Encoded pairs read back, and behind them what follows. */
  lemma {:induction false} PairsRead(before: Text, pairs: seq<Pair>, tail: Text)
    requires PairsOk(pairs) && (tail == [] || tail[0] == BACKSLASH)
    ensures PairsBehind(before + (Encode(pairs) + tail), |before|) == pairs + PairsBehind(tail, 0)
    decreases |pairs|
  {
    hide *;
    var behind := PairsBehind(tail, 0);
    if pairs == [] {
      NoneAhead(before, tail);
      BehindShift(before, tail);
      assert pairs + behind == behind;
    } else {
      var p, rest := pairs[0], pairs[1..];
      PairsSplit(pairs);
      EncodeFirst(pairs);
      EncodeStarts(rest);
      Grouped(PairText(p), Encode(rest), tail);
      PairAhead(before, p, Encode(rest) + tail);
      PairsRead(before + PairText(p), rest, tail);
      assert pairs + behind == [p] + (rest + behind);
    }
  }

  lemma StartBehind(s: Text)
    requires s == [] || s[0] == BACKSLASH
    ensures Start(s, 0) <= |s| && PairsOf(s, Start(s, 0)) == PairsBehind(s, 0)
  {
  }

  lemma NothingBehind()
    ensures PairsBehind([], 0) == []
  {
  }

  lemma PairsBack(pairs: seq<Pair>)
    requires PairsOk(pairs)
    ensures Start(Encode(pairs), 0) <= |Encode(pairs)| && PairsOf(Encode(pairs), Start(Encode(pairs), 0)) == pairs
  {
    hide *;
    EncodeStarts(pairs);
    StartBehind(Encode(pairs));
    PairsRead([], pairs, []);
    NothingBehind();
    assert [] + (Encode(pairs) + []) == Encode(pairs) && pairs + [] == pairs;
  }

  lemma ValueOfPairs(pairs: seq<Pair>, key: Text)
    requires PairsOk(pairs)
    ensures ValueFrom(Encode(pairs), Start(Encode(pairs), 0), key) == Lookup(pairs, key)
    ensures HasFrom(Encode(pairs), Start(Encode(pairs), 0), key) == HasKey(pairs, key)
  {
    hide *;
    StartIs(Encode(pairs));
    PairsBack(pairs);
    LookupReads(Encode(pairs), Start(Encode(pairs), 0), key);
  }

  lemma RemoveStep(s: Text, start: nat, j: nat, k: nat, key: Text, p: Pair, front: Text, back: Text)
    requires start < j < k <= |s| && s[start] == BACKSLASH && RunEnd(s, start + 1) == j && RunEnd(s, j + 1) == k
    requires s[start + 1..j] == p.key && s[..start] == front && s[k..] == back
    ensures p.key == key ==> RemoveFrom(s, start, key) == front + back
    ensures p.key != key ==> RemoveFrom(s, start, key) == if k == |s| then s else RemoveFrom(s, k, key)
  {
    hide *;
    RemoveRound(s, start, key);
  }

  lemma DroppedFirst(pairs: seq<Pair>, key: Text)
    requires pairs != []
    ensures Encode(Dropped(pairs, key)) ==
      if pairs[0].key == key then Encode(pairs[1..]) else PairText(pairs[0]) + Encode(Dropped(pairs[1..], key))
    ensures pairs[1..] == [] ==> Encode(Dropped(pairs[1..], key)) == []
  {
    if pairs[0].key != key {
      assert Dropped(pairs, key)[1..] == Dropped(pairs[1..], key);
    }
  }

  lemma RemoveNothing(before: Text, key: Text)
    ensures RemoveFrom(before + Encode([]), |before|, key) == before + Encode(Dropped([], key))
  {
    assert before + [] == before;
  }

  lemma PairCut(before: Text, p: Pair, tail: Text)
    ensures var s, after := before + (PairText(p) + tail), before + PairText(p);
      |after| <= |s| && s[..|before|] == before && s[|after|..] == tail
      && (|after| == |s| <==> tail == [])
  {
    hide *;
    Grouped(before, PairText(p), tail);
    Cut(before, PairText(p) + tail);
    Cut(before + PairText(p), tail);
  }

  /** Removing at a pair takes the pair out, or goes on behind it. */
  lemma RemoveAtPair(before: Text, p: Pair, tail: Text, key: Text)
    requires PairOk(p) && (tail == [] || tail[0] == BACKSLASH)
    ensures var s, k := before + (PairText(p) + tail), |before + PairText(p)|;
      && k <= |s|
      && (p.key == key ==> RemoveFrom(s, |before|, key) == before + tail)
      && (p.key != key ==> RemoveFrom(s, |before|, key) == if tail == [] then s else RemoveFrom(s, k, key))
  {
    hide *;
    var s, k := before + (PairText(p) + tail), |before + PairText(p)|;
    PairRead(before, p, tail);
    PairLength(before, p);
    PairCut(before, p, tail);
    RemoveStep(s, |before|, |before| + 1 + |p.key|, k, key, p, before, tail);
  }

  lemma LastRemoved(after: Text, rest: seq<Pair>, key: Text)
    ensures rest == [] ==> after + Encode(rest) == after + Encode(Dropped(rest, key))
  {
  }

  /** Removal takes out the first pair with the key. */
  lemma {:induction false} RemoveIsDropped(before: Text, pairs: seq<Pair>, key: Text)
    requires PairsOk(pairs)
    ensures RemoveFrom(before + Encode(pairs), |before|, key) == before + Encode(Dropped(pairs, key))
    decreases |pairs|
  {
    if pairs == [] {
      RemoveNothing(before, key);
    } else {
      hide *;
      var p, rest := pairs[0], pairs[1..];
      PairsSplit(pairs);
      DroppedFirst(pairs, key);
      EncodeFirst(pairs);
      EncodeStarts(rest);
      RemoveAtPair(before, p, Encode(rest), key);
      RemoveIsDropped(before + PairText(p), rest, key);
      LastRemoved(before + PairText(p), rest, key);
      Grouped(before, PairText(p), Encode(rest));
      Grouped(before, PairText(p), Encode(Dropped(rest, key)));
    }
  }

  lemma RemovedPairs(pairs: seq<Pair>, key: Text)
    requires PairsOk(pairs) && BACKSLASH !in key
    ensures Removed(Encode(pairs), key) == Encode(Dropped(pairs, key))
  {
    RemoveIsDropped([], pairs, key);
    assert [] + Encode(pairs) == Encode(pairs) && [] + Encode(Dropped(pairs, key)) == Encode(Dropped(pairs, key));
  }

  /** The string after a removal that began at the backslash at `at` is as before up to there, and goes on
      with a backslash, if at all. */
  ghost predicate RemovedAt(s: Text, r: Text, at: nat) {
    at <= |s| && at <= |r| && r[..at] == s[..at] && (r[at..] == [] || r[at] == BACKSLASH)
  }

  lemma SameRun(s: Text, r: Text, i: nat, k: nat)
    requires i <= k <= |s| && k <= |r| && r[..k] == s[..k] && (k == |r| || r[k] == BACKSLASH)
    requires RunEnd(s, i) <= k
    ensures var j := RunEnd(s, i); RunEnd(r, i) == j && r[i..j] == s[i..j]
  {
    var j := RunEnd(s, i);
    assert r[i..j] == r[..k][i..j] && s[i..j] == s[..k][i..j];
    assert j < k ==> r[j] == r[..k][j] == s[..k][j] == s[j];
    RunEndUnique(r, i, j);
    hide RunEnd;
  }

  lemma AtEnd(s: Text, i: nat, k: nat)
    requires i <= |s| && RunEnd(s, i) == k
    ensures i <= k <= |s| && (k == |s| || s[k] == BACKSLASH)
  {
  }

  lemma RemovedAtIs(s: Text, r: Text, at: nat)
    requires RemovedAt(s, r, at)
    ensures at <= |s| && at <= |r| && r[..at] == s[..at] && (at == |r| || r[at] == BACKSLASH)
  {
  }

  /** A pair that is passed by is read in the string as it becomes, too. */
  lemma PassedBy(s: Text, r: Text, i: nat, j: nat, k: nat, p: Pair)
    requires i <= j < k <= |s| && RunEnd(s, i) == j && RunEnd(s, j + 1) == k && RemovedAt(s, r, k)
    requires s[i..j] == p.key && s[j + 1..k] == p.value
    ensures i <= |r| && PairsOf(r, i) == [p] + PairsBehind(r, k) && PairsOf(s, i) == [p] + PairsBehind(s, k)
  {
    hide *;
    AtEnd(s, j + 1, k);
    RemovedAtIs(s, r, k);
    SameRun(s, r, i, k);
    SameRun(s, r, j + 1, k);
    StepAt(r, i, j, k, p);
    StepAt(s, i, j, k, p);
  }

  lemma RemovedAtKept(s: Text, r: Text, at: nat, k: nat)
    requires at < k <= |s| && k <= |r| && r[..k] == s[..k] && s[at] == BACKSLASH
    ensures RemovedAt(s, r, at)
  {
    assert r[..at] == r[..k][..at] && s[..at] == s[..k][..at] && r[at] == r[..k][at] && s[at] == s[..k][at];
  }

  lemma Unchanged(s: Text, at: nat)
    requires at == |s| || (at < |s| && s[at] == BACKSLASH)
    ensures RemovedAt(s, s, at)
  {
  }

  lemma CutAt(s: Text, at: nat, k: nat)
    requires at <= k <= |s| && (k == |s| || s[k] == BACKSLASH)
    ensures |s[..at]| == at && |s[..k]| == k && s[..k] + s[k..] == s && RemovedAt(s, s[..at] + s[k..], at)
  {
  }

  /** Cutting a pair out leaves what was read behind it. */
  lemma CutOut(s: Text, at: nat, k: nat)
    requires at <= k <= |s| && (k == |s| || s[k] == BACKSLASH)
    ensures var r := s[..at] + s[k..];
      RemovedAt(s, r, at) && at <= |r| && PairsBehind(r, at) == PairsBehind(s, k)
  {
    hide *;
    CutAt(s, at, k);
    RemovedAtIs(s, s[..at] + s[k..], at);
    BehindShift(s[..at], s[k..]);
    BehindShift(s[..k], s[k..]);
  }

  lemma FirstDropped(p: Pair, rest: seq<Pair>, key: Text)
    ensures Dropped([p] + rest, key) == if p.key == key then rest else [p] + Dropped(rest, key)
    ensures Dropped([], key) == []
  {
    assert ([p] + rest)[1..] == rest;
  }

  /** What is read from the backslash at `at` on, of which the first pair stays. */
  lemma PairStays(s: Text, r: Text, at: nat, j: nat, k: nat, key: Text)
    requires at < j < k <= |s| && s[at] == BACKSLASH && RunEnd(s, at + 1) == j && RunEnd(s, j + 1) == k
    requires s[at + 1..j] != key && RemovedAt(s, r, k)
    requires k <= |r| && PairsBehind(r, k) == Dropped(PairsBehind(s, k), key)
    ensures RemovedAt(s, r, at) && at <= |r| && PairsBehind(r, at) == Dropped(PairsBehind(s, at), key)
  {
    hide *;
    var p := Pair(s[at + 1..j], s[j + 1..k]);
    RemovedAtIs(s, r, k);
    RemovedAtKept(s, r, at, k);
    PassedBy(s, r, at + 1, j, k, p);
    BehindIs(r, at);
    BehindIs(s, at);
    FirstDropped(p, PairsBehind(s, k), key);
  }

  lemma NothingRemoved(s: Text, at: nat, key: Text)
    requires at == |s| || (at < |s| && s[at] == BACKSLASH && RunEnd(s, at + 1) == |s|)
    ensures RemovedAt(s, s, at) && PairsBehind(s, at) == Dropped(PairsBehind(s, at), key)
  {
    hide *;
    Unchanged(s, at);
    BehindIs(s, at);
    FirstDropped(Pair([], []), [], key);
    if at < |s| {
      PairsStep(s, at + 1);
    }
  }

  lemma PairGoes(s: Text, at: nat, j: nat, k: nat)
    requires at < j < k <= |s| && s[at] == BACKSLASH && RunEnd(s, at + 1) == j && RunEnd(s, j + 1) == k
    ensures var r, key := s[..at] + s[k..], s[at + 1..j];
      RemovedAt(s, r, at) && at <= |r| && PairsBehind(r, at) == Dropped(PairsBehind(s, at), key)
  {
    hide *;
    AtEnd(s, j + 1, k);
    CutOut(s, at, k);
    BehindIs(s, at);
    PairsStep(s, at + 1);
    FirstDropped(Pair(s[at + 1..j], s[j + 1..k]), PairsBehind(s, k), s[at + 1..j]);
  }

  /** Removing on from a backslash takes the first pair with the key out of those that are read there. */
  lemma {:induction false} RemoveReads(s: Text, at: nat, key: Text)
    requires at == |s| || (at < |s| && s[at] == BACKSLASH)
    ensures var r := RemoveFrom(s, at, key);
      RemovedAt(s, r, at) && at <= |r| && PairsBehind(r, at) == Dropped(PairsBehind(s, at), key)
    decreases |s| - at
  {
    hide *;
    RemoveRound(s, at, key);
    if at == |s| {
      AtEnd(s, at, RunEnd(s, at));
      NothingRemoved(s, at, key);
    } else {
      var j := RunEnd(s, at + 1);
      if j == |s| {
        NothingRemoved(s, at, key);
      } else {
        var k := RunEnd(s, j + 1);
        AtEnd(s, j + 1, k);
        if s[at + 1..j] == key {
          PairGoes(s, at, j, k);
        } else {
          if k == |s| {
            NothingRemoved(s, k, key);
          } else {
            RemoveReads(s, k, key);
          }
          PairStays(s, RemoveFrom(s, at, key), at, j, k, key);
        }
      }
    }
  }

  /** The same for a string that does not begin with a backslash. */
  lemma RemoveReadsFirst(s: Text, key: Text)
    requires s != [] && s[0] != BACKSLASH
    ensures var r := RemoveFrom(s, 0, key);
      Start(s, 0) == 0 && Start(r, 0) <= |r| && PairsOf(r, Start(r, 0)) == Dropped(PairsOf(s, 0), key)
  {
    StartIs(s);
    StartIs(RemoveFrom(s, 0, key));
    hide *;
    RemoveRound(s, 0, key);
    FirstDropped(Pair([], []), [], key);
    var j := RunEnd(s, 0);
    PairsStep(s, 0);
    if j < |s| {
      var k := RunEnd(s, j + 1);
      var p := Pair(s[0..j], s[j + 1..k]);
      AtEnd(s, j + 1, k);
      FirstDropped(p, PairsBehind(s, k), key);
      if p.key == key {
        CutOut(s, 0, k);
        assert s[..0] + s[k..] == s[k..];
        StartBehind(s[k..]);
      } else if k == |s| {
        BehindIs(s, k);
      } else {
        var r := RemoveFrom(s, k, key);
        RemoveReads(s, k, key);
        RemovedAtIs(s, r, k);
        PassedBy(s, r, 0, j, k, p);
        assert r[0] == r[..k][0] == s[..k][0] == s[0];
      }
    }
  }

  /** On any string, lookup reads after a removal what it read before, without the first pair of the key. */
  lemma RemovedReads(s: Text, key: Text)
    requires BACKSLASH !in key
    ensures var r := Removed(s, key);
      && Start(s, 0) <= |s| && Start(r, 0) <= |r|
      && PairsOf(r, Start(r, 0)) == Dropped(PairsOf(s, Start(s, 0)), key)
  {
    StartIs(s);
    RemovedUnless(s, key);
    if s != [] && s[0] != BACKSLASH {
      hide *;
      RemoveReadsFirst(s, key);
    } else {
      hide *;
      var r := RemoveFrom(s, 0, key);
      RemoveReads(s, 0, key);
      RemovedAtIs(s, r, 0);
      StartBehind(s);
      StartBehind(r);
    }
  }

  lemma DroppedStep(pairs: seq<Pair>, key: Text)
    ensures Dropped(pairs, key) == if pairs == [] then [] else if pairs[0].key == key then pairs[1..]
                                   else [pairs[0]] + Dropped(pairs[1..], key)
  {
  }

  lemma DistinctStep(p: Pair, rest: seq<Pair>)
    ensures DistinctKeys([p] + rest) <==> DistinctKeys(rest) && !HasKey(rest, p.key)
  {
    var pairs := [p] + rest;
    assert pairs[0] == p;
    if DistinctKeys(pairs) {
      assert forall i :: 0 <= i < |rest| ==> rest[i] == pairs[i + 1];
    } else {
      assert forall i :: 0 < i < |pairs| ==> pairs[i] == rest[i - 1];
    }
  }

  lemma HasKeyOf(pairs: seq<Pair>, key: Text)
    ensures HasKey(pairs, key) <==> exists p <- pairs :: p.key == key
  {
  }

  lemma DistinctNone()
    ensures DistinctKeys([])
  {
  }

  /** With distinct keys, removal leaves exactly the other pairs, and distinct keys. */
  lemma {:induction false} DroppedMeaning(pairs: seq<Pair>, key: Text)
    requires DistinctKeys(pairs)
    ensures forall p :: p in Dropped(pairs, key) <==> p in pairs && p.key != key
    ensures DistinctKeys(Dropped(pairs, key)) && !HasKey(Dropped(pairs, key), key)
    decreases |pairs|
  {
    hide *;
    DroppedStep(pairs, key);
    HasKeyOf(Dropped(pairs, key), key);
    if pairs == [] {
      DistinctNone();
    } else {
      var first, rest := pairs[0], pairs[1..];
      assert pairs == [first] + rest;
      DistinctStep(first, rest);
      HasKeyOf(rest, first.key);
      if first.key != key {
        DroppedMeaning(rest, key);
        DistinctStep(first, Dropped(rest, key));
        HasKeyOf(Dropped(rest, key), first.key);
      }
    }
  }

  /** Lookup sees the pair of a key, wherever it stands. */
  lemma {:induction false} LookupMeaning(pairs: seq<Pair>, p: Pair)
    requires DistinctKeys(pairs) && p in pairs
    ensures Lookup(pairs, p.key) == p.value
    decreases |pairs|
  {
    var rest := pairs[1..];
    assert pairs == [pairs[0]] + rest;
    if p != pairs[0] {
      assert forall i :: 0 <= i < |rest| ==> rest[i] == pairs[i + 1];
      LookupMeaning(rest, p);
    }
  }

  lemma {:induction false} LookupMisses(pairs: seq<Pair>, key: Text)
    requires !HasKey(pairs, key)
    ensures Lookup(pairs, key) == []
    decreases |pairs|
  {
    if pairs != [] {
      assert pairs[0] in pairs;
      LookupMisses(pairs[1..], key);
    }
  }

  lemma EncodeNone()
    ensures Encode([]) == []
  {
  }

  lemma {:induction false} EncodeMore(pairs: seq<Pair>, p: Pair)
    ensures Encode(pairs + [p]) == Encode(pairs) + PairText(p)
    decreases |pairs|
  {
    hide *;
    if pairs == [] {
      EncodeFirst([p]);
      assert [] + [p] == [p] && [p][1..] == [];
      EncodeNone();
    } else {
      assert (pairs + [p])[0] == pairs[0] && (pairs + [p])[1..] == pairs[1..] + [p];
      EncodeFirst(pairs + [p]);
      EncodeFirst(pairs);
      EncodeMore(pairs[1..], p);
      Grouped(PairText(pairs[0]), Encode(pairs[1..]), PairText(p));
    }
  }

  lemma {:induction false} AsciiKeeps(s: Text)
    requires forall i :: 0 <= i < |s| ==> Printable(s[i])
    ensures Ascii(s) == s
    decreases |s|
  {
    if s == [] {
      assert Ascii(s) == [];
    } else {
      hide Ascii;
      var front, c := s[..|s| - 1], s[|s| - 1];
      assert s == front + [c];
      AsciiStep(front, c);
      AsciiKeeps(front);
    }
  }

  predicate AllPrintable(s: Text) {
    forall c <- s :: Printable(c)
  }

  lemma AllPart(a: Text, b: Text)
    requires AllPrintable(b) && forall c <- a :: c in b
    ensures AllPrintable(a)
  {
  }

  lemma AsciiRange(s: Text)
    ensures AllPrintable(Ascii(s))
  {
  }

  lemma AsciiLegal(s: Text)
    ensures AllPrintable(Ascii(s))
    ensures AllPrintable(s) ==> Ascii(s) == s
  {
    AsciiRange(s);
    if AllPrintable(s) {
      AsciiKeeps(s);
    }
  }

  lemma AsciiNone()
    ensures Ascii([]) == []
  {
  }

  lemma {:induction false} AsciiBoth(a: Text, b: Text)
    ensures Ascii(a + b) == Ascii(a) + Ascii(b)
    decreases |b|
  {
    hide *;
    if b == [] {
      AsciiNone();
      assert a + b == a && Ascii(a) + [] == Ascii(a);
    } else {
      var front, c := b[..|b| - 1], b[|b| - 1];
      var kept := if Printable(c % 128) then [c % 128] else [];
      assert b == front + [c];
      Grouped(a, front, [c]);
      AsciiStep(a + front, c);
      AsciiStep(front, c);
      AsciiBoth(a, front);
      Grouped(Ascii(a), Ascii(front), kept);
    }
  }

  /** A character loses its high bit and is then kept if it is printable; with AsciiBoth this says what is
      stripped from any text. */
  lemma AsciiOne(c: byte)
    ensures Ascii([c]) == if 32 <= c % 128 < 127 then [c % 128] else []
  {
    AsciiNone();
    AsciiStep([], c);
    assert [] + [c] == [c];
    hide Ascii;
  }

  /** A backslash with the high bit set, which the test for backslashes lets through. */
  const HIGH_BACKSLASH: byte := 220

  lemma {:induction false} AsciiBackslash(s: Text)
    requires BACKSLASH !in s
    ensures BACKSLASH in Ascii(s) <==> HIGH_BACKSLASH in s
    decreases |s|
  {
    if s != [] {
      var front, c := s[..|s| - 1], s[|s| - 1];
      assert s == front + [c];
      AsciiBackslash(front);
      assert c % 128 == BACKSLASH <==> c == HIGH_BACKSLASH;
    }
  }

  lemma AsciiPair(p: Pair)
    ensures Ascii(PairText(p)) == PairText(Pair(Ascii(p.key), Ascii(p.value)))
    ensures Ascii(PairText(p)) != [] && Ascii(PairText(p))[0] == BACKSLASH
  {
    var bar := [BACKSLASH];
    assert Ascii([] + bar) == bar by {
      AsciiStep([], BACKSLASH);
    }
    assert [] + bar == bar;
    AsciiBoth(bar + p.key + bar, p.value);
    AsciiBoth(bar + p.key, bar);
    AsciiBoth(bar, p.key);
    hide Ascii;
  }

  /** The value is stored: it is not empty, and with its key it fits behind the other pairs. */
  predicate Fits(pairs: seq<Pair>, key: Text, value: Text) {
    value != [] && |PairText(Pair(key, value))| + |Encode(Dropped(pairs, key))| < MAX_INFO_STRING
  }

  /** The pairs that the stripped text of a key and a value reads as. */
  function Spelled(key: Text, value: Text): seq<Pair> {
    AsciiPair(Pair(key, value));
    PairsOf(Ascii(PairText(Pair(key, value))), 1)
  }

  function Added(pairs: seq<Pair>, key: Text, value: Text): seq<Pair> {
    if Fits(pairs, key, value) then Spelled(key, value) else []
  }

  lemma SpelledIs(key: Text, value: Text)
    ensures Spelled(key, value) == PairsBehind(Ascii(PairText(Pair(key, value))), 0)
  {
    AsciiPair(Pair(key, value));
  }

  lemma AddedCases(pairs: seq<Pair>, key: Text, value: Text)
    ensures Added(pairs, key, value) == if Fits(pairs, key, value) then Spelled(key, value) else []
  {
  }

  lemma FitsNonempty(pairs: seq<Pair>, key: Text, value: Text)
    ensures Fits(pairs, key, value) ==> value != []
  {
  }

  lemma AddedIs(pairs: seq<Pair>, key: Text, value: Text)
    ensures var tail := if Fits(pairs, key, value) then Ascii(PairText(Pair(key, value))) else [];
      (tail == [] || tail[0] == BACKSLASH) && Added(pairs, key, value) == PairsBehind(tail, 0)
  {
    AsciiPair(Pair(key, value));
    hide Ascii, Fits, PairText, RunEnd;
  }

  lemma AllowedIs(key: Text, value: Text)
    requires Allowed(key, value)
    ensures PairOk(Pair(key, value))
  {
    assert forall c <- key :: c in key + value;
    assert forall c <- value :: c in key + value;
  }

  lemma EnteredIs(pairs: seq<Pair>, key: Text, value: Text)
    requires PairsOk(pairs) && Allowed(key, value)
    ensures Entered(Encode(pairs), key, value) ==
      Encode(Dropped(pairs, key)) + if Fits(pairs, key, value) then Ascii(PairText(Pair(key, value))) else []
  {
    AllowedIs(key, value);
    RemovedPairs(pairs, key);
    hide Removed, Dropped, Encode, Ascii;
  }

  lemma DroppedOk(pairs: seq<Pair>, key: Text)
    requires PairsOk(pairs)
    ensures PairsOk(Dropped(pairs, key))
  {
  }

  /** Setting a key on any well-formed info string: lookup then reads the remaining pairs, followed by
      whatever the stripped text reads as. */
  lemma EnteredReads(pairs: seq<Pair>, key: Text, value: Text)
    requires PairsOk(pairs) && Allowed(key, value)
    ensures var s := Entered(Encode(pairs), key, value);
      Start(s, 0) <= |s| && PairsOf(s, Start(s, 0)) == Dropped(pairs, key) + Added(pairs, key, value)
  {
    hide *;
    var s, rest := Entered(Encode(pairs), key, value), Dropped(pairs, key);
    EnteredIs(pairs, key, value);
    DroppedOk(pairs, key);
    AddedIs(pairs, key, value);
    EncodeStarts(rest);
    StartBehind(s);
    var tail := if Fits(pairs, key, value) then Ascii(PairText(Pair(key, value))) else [];
    PairsRead([], rest, tail);
    assert [] + (Encode(rest) + tail) == s;
  }

  lemma {:induction false} LookupBoth(a: seq<Pair>, b: seq<Pair>, key: Text)
    ensures Lookup(a + b, key) == if HasKey(a, key) then Lookup(a, key) else Lookup(b, key)
    ensures HasKey(a + b, key) == (HasKey(a, key) || HasKey(b, key))
    decreases |a|
  {
    hide *;
    if a == [] {
      LookupFirst(Pair([], []), [], key);
      assert a + b == b;
    } else {
      var first, rest := a[0], a[1..];
      assert a == [first] + rest && a + b == [first] + (rest + b);
      LookupFirst(first, rest, key);
      LookupFirst(first, rest + b, key);
      LookupBoth(rest, b, key);
    }
  }

  lemma {:induction false} DroppedLookup(pairs: seq<Pair>, key: Text, other: Text)
    requires other != key
    ensures Lookup(Dropped(pairs, key), other) == Lookup(pairs, other)
    ensures HasKey(Dropped(pairs, key), other) == HasKey(pairs, other)
    decreases |pairs|
  {
    hide *;
    DroppedStep(pairs, key);
    if pairs != [] {
      var first, rest := pairs[0], pairs[1..];
      assert pairs == [first] + rest;
      LookupFirst(first, rest, other);
      if first.key != key {
        LookupFirst(first, Dropped(rest, key), other);
        DroppedLookup(rest, key, other);
      }
    }
  }

  lemma PairOkIs(p: Pair)
    ensures PairOk(p) <==> BACKSLASH !in p.key && BACKSLASH !in p.value
  {
  }

  lemma OkMore(p: Pair, rest: seq<Pair>)
    ensures PairsOk([p] + rest) <==> PairOk(p) && PairsOk(rest)
    ensures PairsOk([])
  {
  }

  /** The pairs that a lookup reads hold no backslash, and only characters of the string. */
  lemma {:induction false} ReadLegal(s: Text, i: nat)
    requires i <= |s|
    ensures PairsOk(PairsOf(s, i))
    ensures forall p, c :: p in PairsOf(s, i) && c in p.key + p.value ==> c in s
    decreases |s| - i
  {
    hide *;
    hide PairsOk;
    var j := RunEnd(s, i);
    PairsStep(s, i);
    OkMore(Pair([], []), []);
    if j < |s| {
      var k := RunEnd(s, j + 1);
      var p := Pair(s[i..j], s[j + 1..k]);
      BehindIs(s, k);
      if k < |s| {
        ReadLegal(s, k + 1);
      }
      PairOkIs(p);
      OkMore(p, PairsBehind(s, k));
    }
  }

  lemma SpelledLegal(key: Text, value: Text)
    ensures PairsOk(Spelled(key, value))
    ensures forall p <- Spelled(key, value) :: AllPrintable(p.key) && AllPrintable(p.value)
  {
    var text := Ascii(PairText(Pair(key, value)));
    AsciiPair(Pair(key, value));
    AsciiLegal(PairText(Pair(key, value)));
    ReadLegal(text, 1);
    hide Ascii, PairsOf;
    forall p | p in Spelled(key, value)
      ensures AllPrintable(p.key) && AllPrintable(p.value)
    {
      assert forall c <- p.key + p.value :: c in text;
      assert forall c <- p.key :: c in p.key + p.value;
      assert forall c <- p.value :: c in p.key + p.value;
    }
  }

  /** The text of a pair in front of what cannot belong to it. */
  lemma SpelledAhead(key: Text, value: Text, p: Pair, tail: Text)
    requires PairOk(p) && (tail == [] || tail[0] == BACKSLASH)
    requires Ascii(PairText(Pair(key, value))) == PairText(p) + tail
    ensures Spelled(key, value) == [p] + PairsBehind(PairText(p) + tail, |PairText(p)|)
  {
    hide *;
    SpelledIs(key, value);
    PairAhead([], p, tail);
    assert [] + (PairText(p) + tail) == PairText(p) + tail && [] + PairText(p) == PairText(p);
  }

  lemma HighIs()
    ensures HIGH_BACKSLASH == 220
  {
  }

  /** The stripped text reads as one pair exactly if there was no backslash with the high bit. */
  lemma SpelledOne(key: Text, value: Text)
    requires Allowed(key, value)
    ensures Spelled(key, value) == [Pair(Ascii(key), Ascii(value))] <==> 220 !in key + value
  {
    hide *;
    HighIs();
    var p := Pair(Ascii(key), Ascii(value));
    AllowedIs(key, value);
    PairLegal(Pair(key, value));
    AsciiBackslash(key);
    AsciiBackslash(value);
    PairOkIs(p);
    AsciiPair(Pair(key, value));
    if HIGH_BACKSLASH in key + value {
      SpelledLegal(key, value);
      OkMore(p, []);
      assert [p] + [] == [p];
    } else {
      assert PairText(p) + [] == PairText(p);
      SpelledAhead(key, value, p, []);
      BehindIs(PairText(p) + [], |PairText(p)|);
      assert [p] + [] == [p];
    }
  }

  lemma TextSplit(key: Text, v: Text, n: nat)
    requires n <= |v|
    ensures PairText(Pair(key, v)) == PairText(Pair(key, v[..n])) + v[n..]
  {
    assert v == v[..n] + v[n..];
  }

  /** What the code stores for a key that is printable is found under it, up to a backslash. */
  lemma SpelledKey(key: Text, value: Text)
    requires Allowed(key, value) && AllPrintable(key)
    ensures var v := Ascii(value);
      Spelled(key, value) != [] && Spelled(key, value)[0] == Pair(key, v[..RunEnd(v, 0)])
  {
    hide *;
    var v := Ascii(value);
    var n := RunEnd(v, 0);
    var p := Pair(key, v[..n]);
    AllowedIs(key, value);
    PairLegal(Pair(key, value));
    AsciiLegal(key);
    AsciiPair(Pair(key, value));
    TextSplit(key, v, n);
    PairOkIs(p);
    assert v[0..n] == v[..n];
    SpelledAhead(key, value, p, v[n..]);
  }

  lemma WholeRun(value: Text)
    requires BACKSLASH !in value
    ensures RunEnd(value, 0) == |value|
  {
    RunEndUnique(value, 0, |value|);
  }

  /** The value is found unchanged exactly if all of it survives. */
  lemma ValueWhole(key: Text, value: Text)
    requires Allowed(key, value)
    ensures var v := Ascii(value); v[..RunEnd(v, 0)] == value <==> AllPrintable(value)
  {
    hide *;
    var v := Ascii(value);
    AllowedIs(key, value);
    PairLegal(Pair(key, value));
    AsciiLegal(value);
    WholeRun(value);
    if v[..RunEnd(v, 0)] == value {
      assert forall c <- value :: c in v;
      AllPart(value, v);
    }
    if AllPrintable(value) {
      assert value[..|value|] == value;
    }
  }

  /** The key that is set, in what lookup reads afterwards. */
  lemma AddedKey(pairs: seq<Pair>, key: Text, value: Text)
    requires Allowed(key, value)
    ensures var v := Ascii(value);
      Lookup(Added(pairs, key, value), key) ==
        if Fits(pairs, key, value) && AllPrintable(key) then v[..RunEnd(v, 0)] else []
    ensures HasKey(Added(pairs, key, value), key) <==> Fits(pairs, key, value) && AllPrintable(key)
  {
    hide *;
    var added := Added(pairs, key, value);
    AddedCases(pairs, key, value);
    if Fits(pairs, key, value) && AllPrintable(key) {
      SpelledKey(key, value);
      assert added == [added[0]] + added[1..];
      LookupFirst(added[0], added[1..], key);
    } else {
      SpelledLegal(key, value);
      HasKeyOf(added, key);
      LookupMisses(added, key);
    }
  }

  lemma SetReads(pairs: seq<Pair>, key: Text, value: Text, other: Text)
    requires PairsOk(pairs) && DistinctKeys(pairs) && Allowed(key, value)
    ensures var s, added := Entered(Encode(pairs), key, value), Added(pairs, key, value);
      var i, v := Start(s, 0), Ascii(value);
      && i <= |s|
      && (ValueFrom(s, i, key) == value <==>
            value == [] || (Fits(pairs, key, value) && AllPrintable(key) && AllPrintable(value)))
      && (HasFrom(s, i, key) <==> Fits(pairs, key, value) && AllPrintable(key))
      && ValueFrom(s, i, key) == (if HasFrom(s, i, key) then v[..RunEnd(v, 0)] else [])
      && (other != key ==>
            && ValueFrom(s, i, other) == (if HasKey(pairs, other) then Lookup(pairs, other) else Lookup(added, other))
            && HasFrom(s, i, other) == (HasKey(pairs, other) || HasKey(added, other)))
  {
    hide *;
    var s, added, rest := Entered(Encode(pairs), key, value), Added(pairs, key, value), Dropped(pairs, key);
    EnteredReads(pairs, key, value);
    LookupReads(s, Start(s, 0), key);
    LookupReads(s, Start(s, 0), other);
    LookupBoth(rest, added, key);
    LookupBoth(rest, added, other);
    DroppedMeaning(pairs, key);
    AddedKey(pairs, key, value);
    ValueWhole(key, value);
    FitsNonempty(pairs, key, value);
    if other != key {
      DroppedLookup(pairs, key, other);
    }
  }

  lemma PrintableIs(s: Text)
    ensures AllPrintable(s) <==> forall c <- s :: 32 <= c < 127
  {
  }

  lemma FitsIs(pairs: seq<Pair>, key: Text, value: Text)
    ensures Fits(pairs, key, value) <==>
      value != [] && 2 + |key| + |value| + |Encode(Dropped(pairs, key))| <= 511
  {
  }

  /** What the code refuses: backslashes, semicolons and quotes, and 64 characters or more. */
  lemma AllowedExactly(s: Text, key: Text, value: Text)
    ensures Allowed(key, value) <==>
      |key| < 64 && |value| < 64 && forall c <- key + value :: c != 92 && c != 59 && c != 34
    ensures !Allowed(key, value) ==> Entered(s, key, value) == s
  {
    hide Ascii, Removed;
  }

  /** Setting a key on a well-formed info string with distinct keys, for any key and value that the
      code does not refuse. Lookup returns the value exactly if it is empty, or if it fits into 511
      characters and nothing is stripped from either; another key is found as before or, if it was not
      set, in what the stripped text reads as. */
  lemma SetThenLookup(pairs: seq<Pair>, key: Text, value: Text, other: Text)
    requires PairsOk(pairs) && DistinctKeys(pairs)
    requires |key| < 64 && |value| < 64 && forall c <- key + value :: c != 92 && c != 59 && c != 34
    ensures var s, v := Entered(Encode(pairs), key, value), Ascii(value);
      var fits := value != [] && 2 + |key| + |value| + |Encode(Dropped(pairs, key))| <= 511;
      var keyWhole, valueWhole := (forall c <- key :: 32 <= c < 127), (forall c <- value :: 32 <= c < 127);
      var added := if fits then Spelled(key, value) else [];
      var i := Start(s, 0);
      && i <= |s|
      && (ValueFrom(s, i, key) == value <==> value == [] || (fits && keyWhole && valueWhole))
      && (HasFrom(s, i, key) <==> fits && keyWhole)
      && ValueFrom(s, i, key) == (if HasFrom(s, i, key) then v[..RunEnd(v, 0)] else [])
      && (other != key ==>
            && ValueFrom(s, i, other) == (if HasKey(pairs, other) then Lookup(pairs, other) else Lookup(added, other))
            && HasFrom(s, i, other) == (HasKey(pairs, other) || HasKey(added, other)))
  {
    hide *;
    AllowedExactly([], key, value);
    FitsIs(pairs, key, value);
    PrintableIs(key);
    PrintableIs(value);
    AddedCases(pairs, key, value);
    SetReads(pairs, key, value, other);
  }

  /** The other keys stay as they were exactly if the stripped text names none that was not set. */
  lemma OtherKeysStay(pairs: seq<Pair>, key: Text, value: Text)
    requires PairsOk(pairs)
    requires |key| < 64 && |value| < 64 && forall c <- key + value :: c != 92 && c != 59 && c != 34
    ensures var s := Entered(Encode(pairs), key, value);
      && Start(s, 0) <= |s|
      && ((forall other | other != key :: ValueFrom(s, Start(s, 0), other) == Lookup(pairs, other)
                                          && HasFrom(s, Start(s, 0), other) == HasKey(pairs, other))
          <==> (value != [] && 2 + |key| + |value| + |Encode(Dropped(pairs, key))| <= 511 ==>
                  forall p <- Spelled(key, value) :: p.key == key || HasKey(pairs, p.key)))
  {
    hide *;
    var s, added, rest := Entered(Encode(pairs), key, value), Added(pairs, key, value), Dropped(pairs, key);
    AllowedExactly([], key, value);
    FitsIs(pairs, key, value);
    AddedCases(pairs, key, value);
    EnteredReads(pairs, key, value);
    forall other | other != key
      ensures HasFrom(s, Start(s, 0), other) == (HasKey(pairs, other) || HasKey(added, other))
      ensures HasKey(pairs, other) || !HasKey(added, other) ==> ValueFrom(s, Start(s, 0), other) == Lookup(pairs, other)
      ensures HasKey(added, other) <==> exists p <- added :: p.key == other
    {
      LookupReads(s, Start(s, 0), other);
      LookupBoth(rest, added, other);
      DroppedLookup(pairs, key, other);
      HasKeyOf(added, other);
      if !HasKey(pairs, other) && !HasKey(added, other) {
        LookupMisses(pairs, other);
        LookupMisses(added, other);
      }
    }
  }

  lemma {:induction false} DistinctMore(pairs: seq<Pair>, p: Pair)
    ensures DistinctKeys(pairs + [p]) <==> DistinctKeys(pairs) && !HasKey(pairs, p.key)
    ensures PairsOk(pairs + [p]) <==> PairsOk(pairs) && PairOk(p)
  {
    var after := pairs + [p];
    assert after[|pairs|] == p;
    assert forall i :: 0 <= i < |pairs| ==> after[i] == pairs[i];
    if HasKey(pairs, p.key) {
      var q :| q in pairs && q.key == p.key;
      var i :| 0 <= i < |pairs| && pairs[i] == q;
      assert after[i].key == after[|pairs|].key;
    }
  }

  /** Without backslashes with the high bit the string stays well-formed, with the stripped pair last.
      Its keys stay distinct unless the stripped key is another key that was set. */
  lemma SetKeepsForm(pairs: seq<Pair>, key: Text, value: Text)
    requires PairsOk(pairs) && DistinctKeys(pairs) && Allowed(key, value) && HIGH_BACKSLASH !in key + value
    ensures var rest, fits := Dropped(pairs, key), Fits(pairs, key, value);
      var after := rest + if fits then [Pair(Ascii(key), Ascii(value))] else [];
      && Entered(Encode(pairs), key, value) == Encode(after) && PairsOk(after)
      && (DistinctKeys(after) <==> !(fits && HasKey(rest, Ascii(key))))
  {
    hide *;
    var rest, p := Dropped(pairs, key), Pair(Ascii(key), Ascii(value));
    EnteredIs(pairs, key, value);
    DroppedOk(pairs, key);
    DroppedMeaning(pairs, key);
    if Fits(pairs, key, value) {
      AllowedIs(key, value);
      PairLegal(Pair(key, value));
      AsciiBackslash(key);
      AsciiBackslash(value);
      PairOkIs(p);
      AsciiPair(Pair(key, value));
      EncodeMore(rest, p);
      DistinctMore(rest, p);
    } else {
      assert rest + [] == rest && Encode(rest) + [] == Encode(rest);
    }
  }

  lemma One<T>(a: T)
    ensures [] + [a] == [a] && forall b :: [a] + [b] == [a, b]
  {
  }

  lemma AsciiTwo(c: byte)
    requires 32 <= c < 127
    ensures Ascii([c]) == [c] && Ascii([HIGH_BACKSLASH, c]) == [BACKSLASH, c]
  {
    AsciiNone();
    AsciiStep([], c);
    AsciiStep([], HIGH_BACKSLASH);
    AsciiStep([HIGH_BACKSLASH], c);
    hide Ascii;
    One(c);
    One(HIGH_BACKSLASH);
    One(BACKSLASH);
  }

  lemma Four<T>(a: T, b: T, c: T, d: T)
    ensures [a, b] + [c, d] == [a, b, c, d]
  {
  }

  lemma TextOfFour(k: byte, b: byte, c: byte)
    ensures PairText(Pair([k], [BACKSLASH, b, BACKSLASH, c])) == [BACKSLASH, k, BACKSLASH, BACKSLASH, b, BACKSLASH, c]
  {
  }

  lemma AsciiOfFour(k: byte, b: byte, c: byte)
    requires 32 <= k < 127 && 32 <= b < 127 && 32 <= c < 127
    ensures Ascii(PairText(Pair([k], [HIGH_BACKSLASH, b, HIGH_BACKSLASH, c]))) ==
      [BACKSLASH, k, BACKSLASH, BACKSLASH, b, BACKSLASH, c]
  {
    hide *;
    AsciiPair(Pair([k], [HIGH_BACKSLASH, b, HIGH_BACKSLASH, c]));
    Four(HIGH_BACKSLASH, b, HIGH_BACKSLASH, c);
    Four(BACKSLASH, b, BACKSLASH, c);
    AsciiTwo(k);
    AsciiTwo(b);
    AsciiTwo(c);
    AsciiBoth([HIGH_BACKSLASH, b], [HIGH_BACKSLASH, c]);
    TextOfFour(k, b, c);
  }

  lemma EnteredExample()
    ensures Allowed([65], [220, 66, 220, 67])
    ensures Entered(Encode([]), [65], [220, 66, 220, 67]) == [92, 65, 92, 92, 66, 92, 67]
  {
    EnteredIs([], [65], [220, 66, 220, 67]);
    AsciiOfFour(65, 66, 67);
    hide Ascii;
  }

  lemma ExampleRuns(s: Text)
    requires s == [92, 65, 92, 92, 66, 92, 67]
    ensures RunEnd(s, 1) == 2 && RunEnd(s, 3) == 3 && RunEnd(s, 4) == 5 && RunEnd(s, 6) == 7
    ensures s[1..2] == [65] && s[3..3] == [] && s[4..5] == [66] && s[6..7] == [67] && Start(s, 0) == 1
  {
    RunEndUnique(s, 1, 2);
    RunEndUnique(s, 3, 3);
    RunEndUnique(s, 4, 5);
    RunEndUnique(s, 6, 7);
    hide RunEnd;
  }

  /** The text of B and C between backslashes with the high bit is stored behind the key A: the value
      of A reads as empty, and the key B, which was never set, as C. */
  lemma HighBackslashExample()
    ensures Allowed([65], [220, 66, 220, 67])
    ensures var s := Entered([], [65], [220, 66, 220, 67]);
      && s == [92, 65, 92, 92, 66, 92, 67] && Start(s, 0) == 1
      && ValueFrom(s, 1, [65]) == [] && ValueFrom(s, 1, [66]) == [67] && !HasKey([], [66])
  {
    hide *;
    EnteredExample();
    EncodeNone();
    var s: Text := [92, 65, 92, 92, 66, 92, 67];
    ExampleRuns(s);
    StringStep(s, 1, [65]);
    StringStep(s, 1, [66]);
    StringStep(s, 4, [66]);
    HasKeyOf([], [66]);
  }

  /** A value of 64 characters or more is refused before the old value is removed, so it is not true
      that a value too long to be set leaves its key absent: that is so exactly if the key was. */
  lemma LongValueKeepsOld(pairs: seq<Pair>, key: Text, value: Text)
    requires PairsOk(pairs) && |value| >= 64
    ensures var s := Entered(Encode(pairs), key, value);
      && ValueFrom(s, Start(s, 0), key) == Lookup(pairs, key)
      && (HasFrom(s, Start(s, 0), key) <==> HasKey(pairs, key))
  {
    ValueOfPairs(pairs, key);
  }

  lemma LongValueExample(value: Text)
    requires |value| == 64 && forall c <- value :: c == 65
    ensures var s := Entered(Encode([Pair([65], [66])]), [65], value); ValueFrom(s, Start(s, 0), [65]) == [66]
  {
    LongValueKeepsOld([Pair([65], [66])], [65], value);
  }

  /** Whatever is set, the string never outgrows its buffer. */
  lemma LengthBound(s: Text, key: Text, value: Text)
    requires |s| < 512
    ensures |Entered(s, key, value)| < 512
  {
  }
}
