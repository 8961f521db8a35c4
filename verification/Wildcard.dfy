/** The wildcard matcher of game/q_shared.c and the language it decides.

    Characters are their C values (a signed char), and a C string is the sequence before its
    terminator. A pointer into a string is an index; at the end it reads the terminator, 0. */
module Wildcard {
  type Text = seq<int>

  const OPEN := 91
  const CLOSE := 93
  const NOT := 33
  const DASH := 45
  const ANY := 63
  const STAR := 42
  const BACKSLASH := 92

  predicate IsCString(s: Text) {
    forall i :: 0 <= i < |s| ==> s[i] != 0
  }

  function At(s: Text, i: nat): int {
    if i < |s| then s[i] else 0
  }

  // ---------------------------------------------------------------------------------------------
  // The language

  /** The first closing bracket at or after `k`, or the end of the pattern. */
  function FindClose(w: Text, k: nat): (c: nat)
    requires k <= |w|
    ensures k <= c <= |w|
    ensures c < |w| ==> w[c] == CLOSE
    ensures forall i :: k <= i < c ==> w[i] != CLOSE
    decreases |w| - k
  {
    if k == |w| || w[k] == CLOSE then k else FindClose(w, k + 1)
  }

  /** Where the members of a set begin, for a set whose opening bracket is at 0. */
  function BodyStart(w: Text): (k: nat)
    requires w != []
    ensures 1 <= k <= |w|
  {
    if At(w, 1) == NOT then 2 else 1
  }

  /** The closing bracket of that set; the first member is never it. The end if there is none. */
  function SetClose(w: Text): (c: nat)
    requires w != []
    ensures 1 <= c <= |w|
  {
    var k := BodyStart(w);
    if k >= |w| then |w| else FindClose(w, k + 1)
  }

  /** A dash between two members in ascending order stands for a range. */
  predicate IsRange(body: Text, i: nat)
    requires i < |body|
  {
    body[i] == DASH && 0 < i < |body| - 1 && body[i - 1] < body[i + 1]
  }

  predicate Selects(body: Text, i: nat, c: int)
    requires i < |body|
  {
    if IsRange(body, i) then body[i - 1] <= c <= body[i + 1] else body[i] == c
  }

  predicate Member(body: Text, c: int) {
    exists i :: 0 <= i < |body| && Selects(body, i, c)
  }

  predicate InSet(w: Text, c: int)
    requires w != [] && SetClose(w) < |w|
  {
    Member(w[BodyStart(w)..SetClose(w)], c) != (BodyStart(w) == 2)
  }

  /** The texts that a pattern stands for. */
  predicate Matches(w: Text, t: Text)
    decreases |w| + |t|
  {
    if w == [] then t == []
    else if w[0] == STAR then Matches(w[1..], t) || (t != [] && Matches(w, t[1..]))
    else if t == [] then false
    else if w[0] == ANY then Matches(w[1..], t[1..])
    else if w[0] == OPEN then
      SetClose(w) < |w| && InSet(w, t[0]) && Matches(w[SetClose(w) + 1..], t[1..])
    else w[0] == t[0] && Matches(w[1..], t[1..])
  }

  // ---------------------------------------------------------------------------------------------
  // What sets accept

  lemma {:induction false} FindCloseUnique(w: Text, k: nat, c: nat)
    requires k <= c < |w| && w[c] == CLOSE && forall i :: k <= i < c ==> w[i] != CLOSE
    ensures FindClose(w, k) == c
    decreases c - k
  {
    if k < c {
      FindCloseUnique(w, k + 1, c);
    }
  }

  lemma OneSet(w: Text, c: int)
    requires w != [] && w[0] == OPEN
    ensures SetClose(w) == |w| - 1 ==> (Matches(w, [c]) <==> InSet(w, c))
  {
    assert [c][1..] == [];
    if SetClose(w) == |w| - 1 {
      assert w[SetClose(w) + 1..] == [];
    }
    hide SetClose, InSet;
  }

  lemma BodyEnds(open: Text, body: Text)
    requires body != [] && 93 !in body[1..]
    ensures var w := open + body + [93]; var c := |open| + |body|;
      && |w| == c + 1 && w[|open|..c] == body && w[|open|] == body[0]
      && FindClose(w, |open| + 1) == c
  {
    var w := open + body + [93];
    assert forall i :: |open| < i < |open| + |body| ==> w[i] == body[1..][i - |open| - 1];
    FindCloseUnique(w, |open| + 1, |open| + |body|);
  }

  /** The pattern of one set, with the body between `[`, perhaps with `!`, and `]`. The first character of
      the body may be anything but `!`. */
  lemma SetIs(body: Text, c: int)
    requires body != [] && 93 !in body[1..]
    ensures body[0] != 33 ==> (Matches([91] + body + [93], [c]) <==> Member(body, c))
    ensures Matches([91, 33] + body + [93], [c]) <==> !Member(body, c)
  {
    BodyEnds([91], body);
    BodyEnds([91, 33], body);
    hide Member, FindClose, Matches;
    OneSet([91] + body + [93], c);
    OneSet([91, 33] + body + [93], c);
  }

  lemma PlainMember(body: Text, c: int)
    requires forall i :: 0 < i < |body| - 1 ==> body[i] != 45
    ensures Member(body, c) <==> c in body
  {
    assert forall i :: 0 <= i < |body| ==> !IsRange(body, i);
    if c in body {
      var i :| 0 <= i < |body| && body[i] == c;
      assert Selects(body, i, c);
    }
  }

  lemma RangeMember(x: int, y: int, c: int)
    ensures Member([x, 45, y], c) <==> if x < y then x <= c <= y else c == x || c == 45 || c == y
  {
    var body := [x, 45, y];
    assert IsRange(body, 1) <==> x < y;
    assert Selects(body, 0, c) <==> c == x;
    assert Selects(body, 2, c) <==> c == y;
    assert Selects(body, 1, c) <==> if x < y then x <= c <= y else c == 45;
    hide Selects, IsRange;
  }

  lemma MemberBoth(a: Text, b: Text, c: int)
    requires a != [] && a[|a| - 1] != 45 && b != [] && b[0] != 45
    ensures Member(a + b, c) <==> Member(a, c) || Member(b, c)
  {
    var ab := a + b;
    forall i | 0 <= i < |a|
      ensures Selects(ab, i, c) <==> Selects(a, i, c)
    {
      assert IsRange(ab, i) <==> IsRange(a, i);
    }
    forall i | 0 <= i < |b|
      ensures Selects(ab, |a| + i, c) <==> Selects(b, i, c)
    {
      assert IsRange(ab, |a| + i) <==> IsRange(b, i);
    }
    hide Selects, IsRange;
    if Member(b, c) {
      var i :| 0 <= i < |b| && Selects(b, i, c);
      assert Selects(ab, |a| + i, c);
    }
    if Member(ab, c) {
      var i :| 0 <= i < |ab| && Selects(ab, i, c);
      assert i < |a| || Selects(b, i - |a|, c);
    }
  }

  /** A star (42) stands for any text, a question mark (63) for any character, and every other sign but an
      opening bracket (91) for itself. */
  lemma {:induction false} OneSign(sign: int, t: Text)
    ensures sign == 42 ==> Matches([sign], t)
    ensures sign == 63 ==> (Matches([sign], t) <==> |t| == 1)
    ensures sign !in {42, 63, 91} ==> (Matches([sign], t) <==> t == [sign])
    decreases |t|
  {
    assert [sign][1..] == [];
    if t != [] {
      assert t == [t[0]] + t[1..];
      if sign == 42 {
        OneSign(sign, t[1..]);
      }
    }
  }

  /** Single members: a set without an inner dash accepts them, and with `!` everything else. */
  lemma MembersAccepted(body: Text, c: int)
    requires body != [] && 93 !in body[1..] && forall i :: 0 < i < |body| - 1 ==> body[i] != 45
    ensures body[0] != 33 ==> (Matches([91] + body + [93], [c]) <==> c in body)
    ensures Matches([91, 33] + body + [93], [c]) <==> c !in body
  {
    SetIs(body, c);
    PlainMember(body, c);
    hide Matches, Member;
  }

  /** `[x-y]` accepts what is between x and y if x is below y, and otherwise x, y and the dash. */
  lemma RangeAccepted(x: int, y: int, c: int)
    requires y != 93
    ensures var within := if x < y then x <= c <= y else c == x || c == 45 || c == y;
      && (x != 33 ==> (Matches([91] + [x, 45, y] + [93], [c]) <==> within))
      && (Matches([91, 33] + [x, 45, y] + [93], [c]) <==> !within)
  {
    assert [x, 45, y][1..] == [45, y];
    SetIs([x, 45, y], c);
    RangeMember(x, y, c);
    hide Matches, Member;
  }

  /** A set of two parts, neither of which has a dash where they meet, accepts what either accepts. */
  lemma PartsAccepted(a: Text, b: Text, c: int)
    requires a != [] && a[|a| - 1] != 45 && a[0] != 33 && 93 !in a[1..]
    requires b != [] && b[0] != 45 && b[0] != 33 && 93 !in b
    ensures Matches([91] + (a + b) + [93], [c]) <==> Matches([91] + a + [93], [c]) || Matches([91] + b + [93], [c])
  {
    assert (a + b)[1..] == a[1..] + b;
    SetIs(a + b, c);
    SetIs(a, c);
    SetIs(b, c);
    MemberBoth(a, b, c);
    hide Matches, Member;
  }

  // ---------------------------------------------------------------------------------------------
  // Facts about stars

  lemma {:induction false} StarAny(r: Text, t: Text)
    ensures Matches([STAR] + [ANY] + r, t) <==> t != [] && Matches([STAR] + r, t[1..])
    decreases |t|
  {
    var w := [STAR] + [ANY] + r;
    assert w[1..] == [ANY] + r && ([ANY] + r)[1..] == r && ([STAR] + r)[1..] == r;
    if t != [] {
      StarAny(r, t[1..]);
    }
  }

  lemma {:induction false} StarStar(r: Text, t: Text)
    ensures Matches([STAR] + [STAR] + r, t) <==> Matches([STAR] + r, t)
    decreases |t|
  {
    var w := [STAR] + [STAR] + r;
    assert w[1..] == [STAR] + r;
    if t != [] {
      StarStar(r, t[1..]);
    }
  }

  /** A star skips some prefix. */
  lemma {:induction false} StarSkips(r: Text, t: Text, k: nat)
    requires k <= |t| && Matches(r, t[k..])
    ensures Matches([STAR] + r, t)
    decreases k
  {
    assert ([STAR] + r)[1..] == r;
    if k > 0 {
      assert t[1..][k - 1..] == t[k..];
      StarSkips(r, t[1..], k - 1);
    } else {
      assert t[0..] == t;
    }
  }

  lemma {:induction false} StarSkipsOnly(r: Text, t: Text)
    requires Matches([STAR] + r, t)
    ensures exists k :: 0 <= k <= |t| && Matches(r, t[k..])
    decreases |t|
  {
    assert ([STAR] + r)[1..] == r;
    if Matches(r, t) {
      assert t[0..] == t;
    } else {
      StarSkipsOnly(r, t[1..]);
      var k :| 0 <= k <= |t[1..]| && Matches(r, t[1..][k..]);
      assert t[1..][k..] == t[k + 1..];
    }
  }

  // ---------------------------------------------------------------------------------------------
  // The language at a pair of pointers

  predicate Fits(w: Text, t: Text, wi: nat, ti: nat)
    requires wi <= |w| && ti <= |t|
  {
    Matches(w[wi..], t[ti..])
  }

  /** The same just after a star. */
  predicate StarFits(w: Text, t: Text, wi: nat, ti: nat)
    requires wi <= |w| && ti <= |t|
  {
    Matches([STAR] + w[wi..], t[ti..])
  }

  lemma FitsStep(w: Text, t: Text, wi: nat, ti: nat)
    requires wi < |w| && ti <= |t|
    ensures w[wi] == STAR ==> (Fits(w, t, wi, ti) <==> StarFits(w, t, wi + 1, ti))
    ensures w[wi] != STAR && ti == |t| ==> !Fits(w, t, wi, ti)
    ensures w[wi] == ANY && ti < |t| ==> (Fits(w, t, wi, ti) <==> Fits(w, t, wi + 1, ti + 1))
    ensures w[wi] !in {STAR, ANY, OPEN} && ti < |t| ==>
      (Fits(w, t, wi, ti) <==> w[wi] == t[ti] && Fits(w, t, wi + 1, ti + 1))
    ensures w[wi] == OPEN && ti < |t| ==> var c := SetClose(w[wi..]);
      (Fits(w, t, wi, ti) <==> c < |w| - wi && InSet(w[wi..], t[ti]) && Fits(w, t, wi + c + 1, ti + 1))
  {
    assert w[wi..] == [w[wi]] + w[wi + 1..];
    if ti < |t| {
      assert t[ti..][1..] == t[ti + 1..];
    }
    var c := SetClose(w[wi..]);
    if c < |w| - wi {
      assert w[wi..][c + 1..] == w[wi + c + 1..];
    }
  }

  lemma FitsEnd(w: Text, t: Text, ti: nat)
    requires ti <= |t|
    ensures Fits(w, t, |w|, ti) <==> ti == |t|
    ensures StarFits(w, t, |w|, ti)
  {
    StarSkips([], t[ti..], |t| - ti);
    assert w[|w|..] == [] && [STAR] + [] == [STAR];
  }

  lemma StarFitsStep(w: Text, t: Text, wi: nat, ti: nat)
    requires wi < |w| && ti <= |t|
    ensures w[wi] == STAR ==> (StarFits(w, t, wi, ti) <==> StarFits(w, t, wi + 1, ti))
    ensures w[wi] == ANY && ti < |t| ==> (StarFits(w, t, wi, ti) <==> StarFits(w, t, wi + 1, ti + 1))
    ensures w[wi] != STAR && ti == |t| ==> !StarFits(w, t, wi, ti)
  {
    assert [STAR] + w[wi..] == [STAR] + [w[wi]] + w[wi + 1..];
    if w[wi] == STAR {
      StarStar(w[wi + 1..], t[ti..]);
    }
    if w[wi] == ANY {
      StarAny(w[wi + 1..], t[ti..]);
      if ti < |t| {
        assert t[ti..][1..] == t[ti + 1..];
      }
    }
    if ti == |t| {
      assert ([STAR] + w[wi..])[1..] == w[wi..];
      FitsStep(w, t, wi, ti);
    }
  }

  lemma StarFitsSome(w: Text, t: Text, wi: nat, ti: nat)
    requires wi <= |w| && ti <= |t|
    ensures StarFits(w, t, wi, ti) <==> exists k :: ti <= k <= |t| && Fits(w, t, wi, k)
  {
    if StarFits(w, t, wi, ti) {
      StarSkipsOnly(w[wi..], t[ti..]);
      var k :| 0 <= k <= |t[ti..]| && Matches(w[wi..], t[ti..][k..]);
      assert t[ti..][k..] == t[ti + k..];
      assert Fits(w, t, wi, ti + k);
    }
    if k :| ti <= k <= |t| && Fits(w, t, wi, k) {
      assert t[ti..][k - ti..] == t[k..];
      StarSkips(w[wi..], t[ti..], k - ti);
    }
  }

  // ---------------------------------------------------------------------------------------------
  // The matcher

  /** strchr for a closing bracket. */
  method FindBracket(w: Text, from: nat) returns (c: nat)
    requires IsCString(w) && from <= |w|
    ensures c == FindClose(w, from)
  {
    c := from;
    while At(w, c) != CLOSE && At(w, c) != 0
      invariant from <= c <= |w| && FindClose(w, c) == FindClose(w, from)
      decreases |w| - c
    {
      c := c + 1;
    }
  }

  /** A terminated set in place: its members, and the bracket after them. */
  lemma SetBody(w: Text, o: nat)
    requires o < |w| && SetClose(w[o..]) < |w| - o
    ensures var s := w[o..]; var b, c := o + BodyStart(s), o + SetClose(s);
      var body := s[BodyStart(s)..SetClose(s)];
      && b < c < |w| && w[c] == CLOSE && (BodyStart(s) == 2 <==> At(w, o + 1) == NOT)
      && (forall i :: b < i < c ==> w[i] != CLOSE)
      && |body| == c - b && (forall i :: b <= i < c ==> w[i] == body[i - b])
  {
    var s := w[o..];
    assert forall i :: 0 <= i < |s| ==> s[i] == w[o + i];
    var b, c := o + BodyStart(s), o + SetClose(s);
    assert forall i :: b < i < c ==> w[i] == s[i - o];
  }

  /** `set`: the set that opens just before `w0`, against the character at `t0`. */
  method Set(w: Text, t: Text, w0: nat, t0: nat) returns (fit: bool, wi: nat, ti: nat)
    requires IsCString(w) && IsCString(t) && 0 < w0 <= |w| && t0 < |t|
    requires SetClose(w[w0 - 1..]) < |w| - (w0 - 1)
    ensures fit <==> InSet(w[w0 - 1..], t[t0])
    ensures wi == w0 - 1 + SetClose(w[w0 - 1..]) && ti == if fit then t0 + 1 else t0
  {
    ghost var s := w[w0 - 1..];
    ghost var b, c := w0 - 1 + BodyStart(s), w0 - 1 + SetClose(s);
    ghost var body := s[BodyStart(s)..SetClose(s)];
    wi, ti, fit := w0, t0, false;
    var negation, atBeginning := false, true;
    if At(w, wi) == NOT {
      negation := true;
      wi := wi + 1;
    }
    SetBody(w, w0 - 1);
    while At(w, wi) != CLOSE || atBeginning
      invariant b <= wi <= c && (atBeginning <==> wi == b)
      invariant fit ==> Member(body, t[t0])
      invariant !fit ==> forall i :: 0 <= i < wi - b ==> !Selects(body, i, t[t0])
      decreases c - wi
    {
      ghost var i := wi - b;
      if !fit {
        if At(w, wi) == DASH && !atBeginning && At(w, wi - 1) < At(w, wi + 1) && At(w, wi + 1) != CLOSE {
          assert IsRange(body, i);
          if At(w, wi - 1) <= t[ti] <= At(w, wi + 1) {
            assert Selects(body, i, t[t0]);
            fit := true;
            wi := wi + 1;
          }
        } else {
          assert !IsRange(body, i);
          if At(w, wi) == t[ti] {
            assert Selects(body, i, t[t0]);
            fit := true;
          }
        }
      }
      wi := wi + 1;
      atBeginning := false;
    }
    if negation {
      fit := !fit;
    }
    if fit {
      ti := ti + 1;
    }
  }

  /** Moves past a character that did not fit, and then past those that cannot begin the rest. */
  method SkipTo(w: Text, t: Text, wi: nat, t0: nat) returns (ti: nat)
    requires IsCString(w) && IsCString(t) && wi <= |w| && t0 < |t|
    requires At(w, wi) != STAR && At(w, wi) != ANY && !Fits(w, t, wi, t0)
    ensures t0 < ti <= |t| && forall k :: t0 <= k < ti ==> !Fits(w, t, wi, k)
  {
    ti := t0 + 1;
    while At(w, wi) != At(t, ti) && At(w, wi) != OPEN && At(t, ti) != 0
      invariant t0 < ti <= |t| && forall k :: t0 <= k < ti ==> !Fits(w, t, wi, k)
      decreases |t| - ti
    {
      if wi < |w| {
        FitsStep(w, t, wi, ti);
      } else {
        FitsEnd(w, t, ti);
      }
      ti := ti + 1;
    }
  }

  lemma StarAtEnd(w: Text, t: Text, wi: nat)
    requires wi <= |w|
    ensures StarFits(w, t, wi, |t|) <==> Fits(w, t, wi, |t|)
  {
    StarFitsSome(w, t, wi, |t|);
  }

  /** The look-ahead in `wildcardfit` finds the bracket that closes the set. */
  lemma CloseInPlace(w: Text, o: nat, close: nat)
    requires o < |w| && o < close <= |w|
    requires var b := if At(w, o + 1) == NOT then o + 2 else o + 1;
      close == if At(w, b) == CLOSE then b + 1 else b
    ensures FindClose(w, close) == o + SetClose(w[o..])
  {
  }

  /** `asterisk`: skips the star, and moves the text to the first place where the rest fits. */
  method Asterisk(w: Text, t: Text, w0: nat, t0: nat) returns (fit: bool, wi: nat, ti: nat)
    requires IsCString(w) && IsCString(t) && w0 < |w| && t0 <= |t| && w[w0] == STAR
    ensures w0 < wi <= |w| && ti <= |t|
    ensures fit <==> Fits(w, t, w0, t0)
    ensures fit ==> Fits(w, t, wi, ti)
    decreases |w| - w0, 0
  {
    FitsStep(w, t, w0, t0);
    wi, ti := w0 + 1, t0;
    while At(t, ti) != 0 && (At(w, wi) == ANY || At(w, wi) == STAR)
      invariant w0 < wi <= |w| && ti <= |t|
      invariant StarFits(w, t, wi, ti) <==> Fits(w, t, w0, t0)
      decreases |w| - wi
    {
      StarFitsStep(w, t, wi, ti);
      if At(w, wi) == ANY {
        ti := ti + 1;
      }
      wi := wi + 1;
    }
    while At(w, wi) == STAR
      invariant w0 < wi <= |w| && ti <= |t|
      invariant StarFits(w, t, wi, ti) <==> Fits(w, t, w0, t0)
      invariant ti < |t| ==> At(w, wi) != STAR && At(w, wi) != ANY
      decreases |w| - wi
    {
      StarFitsStep(w, t, wi, ti);
      wi := wi + 1;
    }
    FitsEnd(w, t, ti);
    if At(t, ti) == 0 && At(w, wi) != 0 {
      StarFitsStep(w, t, wi, ti);
      return false, wi, ti;
    }
    if At(t, ti) == 0 && At(w, wi) == 0 {
      return true, wi, ti;
    }
    fit, ti := Advance(w, t, wi, ti);
  }

  /** The search in `asterisk`, for a rest that does not begin with a star or question mark. */
  method Advance(w: Text, t: Text, wi: nat, t0: nat) returns (fit: bool, ti: nat)
    requires IsCString(w) && IsCString(t) && wi <= |w| && t0 < |t|
    requires At(w, wi) != STAR && At(w, wi) != ANY
    ensures ti <= |t| && (fit <==> StarFits(w, t, wi, t0)) && (fit ==> Fits(w, t, wi, ti))
    decreases |w| - wi, 3
  {
    StarFitsSome(w, t, wi, t0);
    FitsEnd(w, t, |t|);
    if wi < |w| {
      FitsStep(w, t, wi, |t|);
    }
    ti, fit := t0, true;
    var found := WildcardFit(w, t, wi, ti);
    if !found {
      var more := true;
      while more
        invariant t0 <= ti <= |t| && (more ==> ti < |t|)
        invariant forall k :: t0 <= k < ti ==> !Fits(w, t, wi, k)
        invariant more ==> fit && !Fits(w, t, wi, ti)
        invariant !more ==> if ti < |t| then fit && Fits(w, t, wi, ti) else !fit
        decreases |t| - ti, more
      {
        ti := SkipTo(w, t, wi, ti);
        if At(t, ti) != 0 {
          var again := WildcardFit(w, t, wi, ti);
          more := !again;
        } else {
          fit := false;
          more := false;
        }
      }
    }
    if At(t, ti) == 0 && At(w, wi) == 0 {
      fit := true;
    }
  }

  /** `wildcardfit` at a pair of pointers: whether the rest of the text is in the language of the rest
      of the pattern. */
  method WildcardFit(w: Text, t: Text, w0: nat, t0: nat) returns (r: bool)
    requires IsCString(w) && IsCString(t) && w0 <= |w| && t0 <= |t|
    ensures r <==> Fits(w, t, w0, t0)
    decreases |w| - w0, 2
  {
    var wi: nat, ti: nat, fit := w0, t0, true;
    while At(w, wi) != 0 && fit && At(t, ti) != 0
      invariant w0 <= wi <= |w| && ti <= |t|
      invariant fit ==> (Fits(w, t, wi, ti) <==> Fits(w, t, w0, t0))
      invariant !fit ==> !Fits(w, t, w0, t0)
      decreases |w| - wi, fit
    {
      fit, wi, ti := MatchOne(w, t, wi, ti);
    }
    while At(w, wi) == STAR && fit
      invariant w0 <= wi <= |w| && ti <= |t|
      invariant fit ==> (Fits(w, t, wi, ti) <==> Fits(w, t, w0, t0))
      invariant At(w, wi) != 0 ==> !fit || ti == |t|
      decreases |w| - wi
    {
      FitsStep(w, t, wi, ti);
      StarAtEnd(w, t, wi + 1);
      wi := wi + 1;
    }
    FitsEnd(w, t, ti);
    if wi < |w| {
      FitsStep(w, t, wi, ti);
    }
    return fit && At(t, ti) == 0 && At(w, wi) == 0;
  }

  /** The switch in `wildcardfit`: one step along the pattern. An unterminated set fails. */
  method MatchOne(w: Text, t: Text, w0: nat, t0: nat) returns (fit: bool, wi: nat, ti: nat)
    requires IsCString(w) && IsCString(t) && w0 < |w| && t0 < |t|
    ensures w0 < wi <= |w| && ti <= |t|
    ensures if fit then Fits(w, t, wi, ti) <==> Fits(w, t, w0, t0) else !Fits(w, t, w0, t0)
    decreases |w| - w0, 1
  {
    FitsStep(w, t, w0, t0);
    hide FindClose, Matches, Member;
    wi, ti := w0, t0;
    if w[wi] == OPEN {
      var close: nat := wi + 1;
      if At(w, close) == NOT {
        close := close + 1;
      }
      if At(w, close) == CLOSE {
        close := close + 1;
      }
      var c := FindBracket(w, close);
      CloseInPlace(w, wi, close);
      if c == |w| {
        return false, |w|, ti;
      }
      fit, wi, ti := Set(w, t, wi + 1, ti);
      wi := wi + 1;
    } else if w[wi] == ANY {
      fit, ti, wi := true, ti + 1, wi + 1;
    } else if w[wi] == STAR {
      fit, wi, ti := Asterisk(w, t, wi, ti);
    } else {
      fit := w[wi] == t[ti];
      ti, wi := ti + 1, wi + 1;
    }
  }

  /** The matcher on whole strings. */
  method MatchWildcard(pattern: Text, text: Text) returns (r: bool)
    requires IsCString(pattern) && IsCString(text)
    ensures r <==> Matches(pattern, text)
  {
    r := WildcardFit(pattern, text, 0, 0);
    assert pattern[0..] == pattern && text[0..] == text;
  }
}
