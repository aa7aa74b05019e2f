/**
 Glob matching without backtracking: the positions of the pattern that may match the rest of the target
 are kept in ascending order in a list that is threaded through an array and rewritten while it is walked.
 */
module WildMatch {

  const MAXNAMLEN: nat := 1025

  /** A C string: no NUL inside. */
  predicate CString(s: string) {
    forall i :: 0 <= i < |s| ==> s[i] != '\0'
  }

  /** The character at a position of a C string; the terminating NUL at its end. */
  function At(s: string, i: nat): char
    requires i <= |s|
  {
    if i < |s| then s[i] else '\0'
  }

  function ToLower(c: char): char {
    if 'A' <= c <= 'Z' then c - 'A' + 'a' else c
  }

  /** One pattern character other than * against one target character. */
  predicate Accepts(p: char, c: char) {
    p == '?' || ToLower(p) == ToLower(c)
  }

  /** The recursive meaning of a pattern from position p on, for the target from position t on. */
  predicate Matches(pattern: string, p: nat, target: string, t: nat)
    requires p <= |pattern| && t <= |target|
    decreases |pattern| - p, |target| - t
  {
    if p == |pattern| then t == |target|
    else if pattern[p] == '*' then
      Matches(pattern, p + 1, target, t) || (t < |target| && Matches(pattern, p, target, t + 1))
    else t < |target| && Accepts(pattern[p], target[t]) && Matches(pattern, p + 1, target, t + 1)
  }

  /** Some position of the list matches the target from t on. */
  ghost predicate Any(pattern: string, xs: seq<nat>, target: string, t: nat)
    requires t <= |target| && InPattern(pattern, xs)
  {
    exists i :: 0 <= i < |xs| && Matches(pattern, xs[i], target, t)
  }

  ghost predicate InPattern(pattern: string, xs: seq<nat>) {
    forall i :: 0 <= i < |xs| ==> xs[i] <= |pattern|
  }

  lemma {:induction false} AnyAppend(pattern: string, a: seq<nat>, b: seq<nat>, target: string, t: nat)
    requires t <= |target| && InPattern(pattern, a) && InPattern(pattern, b)
    ensures InPattern(pattern, a + b)
    ensures Any(pattern, a + b, target, t) <==> Any(pattern, a, target, t) || Any(pattern, b, target, t)
  {
    if Any(pattern, a, target, t) {
      var i :| 0 <= i < |a| && Matches(pattern, a[i], target, t);
      assert (a + b)[i] == a[i];
    }
    if Any(pattern, b, target, t) {
      var i :| 0 <= i < |b| && Matches(pattern, b[i], target, t);
      assert (a + b)[|a| + i] == b[i];
    }
  }

  lemma {:induction false} AnyOne(pattern: string, x: nat, target: string, t: nat)
    requires t <= |target| && x <= |pattern|
    ensures Any(pattern, [x], target, t) <==> Matches(pattern, x, target, t)
  {
    assert [x][0] == x;
  }

  // --------------------------------------------------- the list in the array

  ghost predicate Ascending(xs: seq<nat>) {
    forall i, j :: 0 <= i < j < |xs| ==> xs[i] < xs[j]
  }

  /** What the link of the i-th position has to be. */
  function Next(xs: seq<nat>, i: nat): int
    requires i < |xs|
  {
    if i + 1 < |xs| then xs[i + 1] else -1
  }

  /** The links lead through the list to its end. */
  ghost predicate Threaded(link: seq<int>, xs: seq<nat>, n: nat)
  {
    && n < |link| && Ascending(xs) && (forall i :: 0 <= i < |xs| ==> xs[i] <= n)
    && forall i {:trigger Next(xs, i)} :: 0 <= i < |xs| ==> link[xs[i]] == Next(xs, i)
  }

  /** The links lead through the list to its last position, whose own link is not set yet. */
  ghost predicate Growing(link: seq<int>, xs: seq<nat>, n: nat)
  {
    && n < |link| && Ascending(xs) && (forall i :: 0 <= i < |xs| ==> xs[i] <= n)
    && forall i {:trigger Next(xs, i)} :: 0 <= i < |xs| - 1 ==> link[xs[i]] == Next(xs, i)
  }

  /** A position is put at the end of the list once, however often it is pushed in a row. */
  function Push(xs: seq<nat>, x: nat): seq<nat> {
    if xs != [] && xs[|xs| - 1] == x then xs else xs + [x]
  }

  /** All positions of the list are at most x. */
  ghost predicate UpTo(xs: seq<nat>, x: nat) {
    forall i :: 0 <= i < |xs| ==> xs[i] <= x
  }

  /** All positions of the list are above x. */
  ghost predicate Above(xs: seq<nat>, x: nat) {
    forall i :: 0 <= i < |xs| ==> xs[i] > x
  }

  /** Linking the last position to the one pushed extends the list. */
  lemma {:induction false} PushGrows(link: seq<int>, xs: seq<nat>, n: nat, x: nat, link': seq<int>)
    requires Growing(link, xs, n) && UpTo(xs, x) && x <= n < |link|
    requires link' == if xs == [] then link else link[xs[|xs| - 1] := x]
    ensures Growing(link', Push(xs, x), n) && UpTo(Push(xs, x), x)
    ensures Push(xs, x) != [] && Push(xs, x)[|Push(xs, x)| - 1] == x
    ensures Push(xs, x)[0] == if xs == [] then x else xs[0]
  {
    var ys := Push(xs, x);
    forall i {:trigger Next(ys, i)} | 0 <= i < |ys| - 1
      ensures link'[ys[i]] == Next(ys, i)
    {
      if i < |xs| - 1 {
        assert link[xs[i]] == Next(xs, i);
        assert xs[i] < xs[|xs| - 1];
      }
    }
  }

  /** Writing a link below or at none of the positions leaves the walk alone. */
  lemma {:induction false} ThreadedElsewhere(link: seq<int>, xs: seq<nat>, n: nat, at: nat, v: int)
    requires Threaded(link, xs, n) && at < |link| && Above(xs, at)
    ensures Threaded(link[at := v], xs, n)
  {
    forall i {:trigger Next(xs, i)} | 0 <= i < |xs|
      ensures link[at := v][xs[i]] == Next(xs, i)
    {
      assert link[xs[i]] == Next(xs, i);
    }
  }

  /** The rest of a list is a list. */
  lemma {:induction false} ThreadedTail(link: seq<int>, xs: seq<nat>, n: nat)
    requires Threaded(link, xs, n) && xs != []
    ensures Threaded(link, xs[1..], n) && Above(xs[1..], xs[0])
    ensures link[xs[0]] == if xs[1..] == [] then -1 else xs[1..][0]
  {
    assert link[xs[0]] == Next(xs, 0);
    forall i {:trigger Next(xs[1..], i)} | 0 <= i < |xs| - 1
      ensures link[xs[1..][i]] == Next(xs[1..], i)
    {
      assert link[xs[i + 1]] == Next(xs, i + 1);
    }
  }

  /** Putting x before a list that starts above it. */
  lemma {:induction false} ThreadedCons(link: seq<int>, xs: seq<nat>, n: nat, x: nat)
    requires Threaded(link, xs, n) && x <= n < |link| && Above(xs, x)
    ensures var v: int := if xs == [] then -1 else xs[0]; Threaded(link[x := v], [x] + xs, n)
  {
    var v: int := if xs == [] then -1 else xs[0];
    var ys := [x] + xs;
    forall i {:trigger Next(ys, i)} | 0 <= i < |ys|
      ensures link[x := v][ys[i]] == Next(ys, i)
    {
      if i > 0 {
        assert link[xs[i - 1]] == Next(xs, i - 1);
      }
    }
  }

  /** Setting the last link to -1 completes the list. */
  lemma {:induction false} GrowingDone(link: seq<int>, xs: seq<nat>, n: nat)
    requires Growing(link, xs, n) && xs != []
    ensures Threaded(link[xs[|xs| - 1] := -1], xs, n)
  {
    var link' := link[xs[|xs| - 1] := -1];
    forall i {:trigger Next(xs, i)} | 0 <= i < |xs|
      ensures link'[xs[i]] == Next(xs, i)
    {
      if i < |xs| - 1 {
        assert link[xs[i]] == Next(xs, i);
        assert xs[i] < xs[|xs| - 1];
      }
    }
  }

  /** Writing above all positions of a growing list leaves it alone. */
  lemma {:induction false} GrowingElsewhere(link: seq<int>, xs: seq<nat>, n: nat, at: nat, v: int)
    requires Growing(link, xs, n) && at < |link| && forall i :: 0 <= i < |xs| ==> xs[i] < at
    ensures Growing(link[at := v], xs, n)
  {
    forall i {:trigger Next(xs, i)} | 0 <= i < |xs| - 1
      ensures link[at := v][xs[i]] == Next(xs, i)
    {
      assert link[xs[i]] == Next(xs, i);
    }
  }

  // ------------------------------------------------------------- the matcher

  /** The position `first` of a list, or -1. */
  function Head(xs: seq<nat>): int {
    if xs == [] then -1 else xs[0]
  }

  function Last(xs: seq<nat>): int {
    if xs == [] then -1 else xs[|xs| - 1]
  }

  /**
   In the middle of a round for target position t: `todo` is still to be visited, `built` are the positions
   for the next round, and together they tell whether the whole pattern matches.
   */
  ghost predicate Round(link: seq<int>, pattern: string, target: string, t: nat, todo: seq<nat>, built: seq<nat>)
  {
    && t < |target| && Threaded(link, todo, |pattern|) && Growing(link, built, |pattern|)
    && (todo != [] ==> UpTo(built, todo[0]))
    && (Matches(pattern, 0, target, 0) <==> Any(pattern, todo, target, t) || Any(pattern, built, target, t + 1))
  }

  /** A visited position is replaced by those it leads to in this round and in the next one. */
  lemma {:induction false} Visit(pattern: string, target: string, t: nat, here: nat, rest: seq<nat>, built: seq<nat>,
                                 now: seq<nat>, later: seq<nat>)
    requires t < |target| && here <= |pattern| && InPattern(pattern, [here] + rest) && InPattern(pattern, built)
    requires InPattern(pattern, now) && InPattern(pattern, later)
    requires Matches(pattern, here, target, t) <==> Any(pattern, now, target, t) || Any(pattern, later, target, t + 1)
    ensures InPattern(pattern, rest) && InPattern(pattern, now + rest) && InPattern(pattern, built + later)
    ensures Any(pattern, [here] + rest, target, t) || Any(pattern, built, target, t + 1)
       <==> Any(pattern, now + rest, target, t) || Any(pattern, built + later, target, t + 1)
  {
    assert forall i :: 0 <= i < |rest| ==> rest[i] == ([here] + rest)[i + 1];
    assert here == ([here] + rest)[0];
    AnyAppend(pattern, [here], rest, target, t);
    AnyOne(pattern, here, target, t);
    AnyAppend(pattern, now, rest, target, t);
    AnyAppend(pattern, built, later, target, t + 1);
  }

  /** Pushing a position twice in a row adds nothing. */
  lemma {:induction false} AnyPush(pattern: string, xs: seq<nat>, x: nat, target: string, t: nat)
    requires t <= |target| && InPattern(pattern, xs) && x <= |pattern|
    ensures InPattern(pattern, Push(xs, x)) && InPattern(pattern, xs + [x])
    ensures Any(pattern, Push(xs, x), target, t) <==> Any(pattern, xs + [x], target, t)
  {
    AnyAppend(pattern, xs, [x], target, t);
    AnyOne(pattern, x, target, t);
    if xs != [] && xs[|xs| - 1] == x && Matches(pattern, x, target, t) {
      assert Matches(pattern, xs[|xs| - 1], target, t);
    }
  }

  lemma {:induction false} AnyAgain(pattern: string, rest: seq<nat>, x: nat, target: string, t: nat)
    requires t <= |target| && InPattern(pattern, rest) && rest != [] && rest[0] == x
    ensures Any(pattern, [x] + rest, target, t) <==> Any(pattern, rest, target, t)
  {
    AnyAppend(pattern, [x], rest, target, t);
    AnyOne(pattern, x, target, t);
    if Matches(pattern, x, target, t) {
      assert Matches(pattern, rest[0], target, t);
    }
  }

  /** The lists during the visit of position `here`: `rest` is above it, `built` goes up to it. */
  ghost predicate Around(link: seq<int>, n: nat, here: nat, rest: seq<nat>, built: seq<nat>)
  {
    Threaded(link, rest, n) && Growing(link, built, n) && Above(rest, here) && UpTo(built, here)
  }

  /** At a *, the position after it is to be visited in this round too; it is put into the list if it is not there. */
  method Expand(link: array<int>, n: nat, here: nat, next: int, ghost rest: seq<nat>, ghost built: seq<nat>)
    returns (next': int, ghost rest': seq<nat>)
    requires here < n < link.Length && Around(link[..], n, here, rest, built) && next == Head(rest)
    modifies link
    ensures Around(link[..], n, here, rest', built) && next' == Head(rest') == here + 1
    ensures rest' == if rest != [] && rest[0] == here + 1 then rest else [here + 1] + rest
  {
    next', rest' := next, rest;
    if next != here + 1 {
      ghost var was := link[..];
      link[here + 1] := next;
      assert link[..] == was[here + 1 := next];
      ThreadedCons(was, rest, n, here + 1);
      GrowingElsewhere(was, built, n, here + 1, next);
      next', rest' := here + 1, [here + 1] + rest;
    }
  }

  /** Put a position into the list for the next round. */
  method PushNext(link: array<int>, n: nat, here: nat, pos: nat, first: int, last: int, ghost rest: seq<nat>,
                  ghost built: seq<nat>)
    returns (first': int, last': int)
    requires n < link.Length && Around(link[..], n, here, rest, built) && here <= pos <= here + 1 && pos <= n
    requires last == Last(built) && (built != [] ==> first == built[0])
    modifies link
    ensures var ys := Push(built, pos);
            && Threaded(link[..], rest, n) && Growing(link[..], ys, n) && UpTo(ys, pos) && ys != []
            && last' == Last(ys) && first' == ys[0]
  {
    ghost var was := link[..];
    PushGrows(was, built, n, pos, if built == [] then was else was[built[|built| - 1] := pos]);
    first' := first;
    if last < 0 {
      first' := pos;
    } else {
      link[last] := pos;
      assert link[..] == was[last := pos];
      ThreadedElsewhere(was, rest, n, last, pos);
    }
    last' := pos;
  }

  /** What a * leads to: the position after it in this round, and itself in the next one. */
  lemma {:induction false} VisitStar(pattern: string, target: string, t: nat, here: nat, rest: seq<nat>,
                                     rest': seq<nat>,
                                     built: seq<nat>, built': seq<nat>)
    requires t < |target| && here < |pattern| && pattern[here] == '*' && InPattern(pattern, rest)
             && InPattern(pattern, built)
    requires rest' == (if rest != [] && rest[0] == here + 1 then rest else [here + 1] + rest)
             && built' == Push(built, here)
    ensures InPattern(pattern, [here] + rest) && InPattern(pattern, rest') && InPattern(pattern, built')
    ensures Any(pattern, [here] + rest, target, t) || Any(pattern, built, target, t + 1)
       <==> Any(pattern, rest', target, t) || Any(pattern, built', target, t + 1)
  {
    AnyOne(pattern, here + 1, target, t);
    AnyOne(pattern, here, target, t + 1);
    Visit(pattern, target, t, here, rest, built, [here + 1], [here]);
    AnyPush(pattern, built, here, target, t + 1);
    if rest != [] && rest[0] == here + 1 {
      AnyAgain(pattern, rest, here + 1, target, t);
    }
  }

  /** What any other position leads to: the one after it in the next round if its character is accepted. */
  lemma {:induction false} VisitOther(pattern: string, target: string, t: nat, here: nat, rest: seq<nat>,
                                      built: seq<nat>, built': seq<nat>)
    requires t < |target| && here <= |pattern| && At(pattern, here) != '*' && InPattern(pattern, rest)
             && InPattern(pattern, built)
    requires built' == if here < |pattern| && Accepts(pattern[here], target[t]) then Push(built, here + 1) else built
    ensures InPattern(pattern, [here] + rest) && InPattern(pattern, built')
    ensures Any(pattern, [here] + rest, target, t) || Any(pattern, built, target, t + 1)
       <==> Any(pattern, rest, target, t) || Any(pattern, built', target, t + 1)
  {
    assert [] + rest == rest && built + [] == built;
    if here < |pattern| && Accepts(pattern[here], target[t]) {
      AnyOne(pattern, here + 1, target, t + 1);
      Visit(pattern, target, t, here, rest, built, [], [here + 1]);
      AnyPush(pattern, built, here + 1, target, t + 1);
    } else {
      Visit(pattern, target, t, here, rest, built, [], []);
    }
  }

  /** Only a character of the pattern, not its end, accepts a character of the target. */
  lemma {:induction false} EndAcceptsNothing(pattern: string, here: nat, c: char)
    requires here <= |pattern| && c != '\0' && CString(pattern)
    ensures At(pattern, here) == '?' || ToLower(At(pattern, here)) == ToLower(c) <==>
              here < |pattern| && Accepts(pattern[here], c)
  {
  }

  /** The variables first and last describe the list that is built. */
  ghost predicate Ends(built: seq<nat>, first: int, last: int) {
    last == Last(built) && (built != [] ==> first == built[0])
  }

  /** At a *: visit the position after it in this round and the * itself again in the next one. */
  method StarStep(link: array<int>, n: nat, here: nat, next: int, first: int, last: int, ghost rest: seq<nat>,
                  ghost built: seq<nat>)
    returns (next': int, first': int, last': int, ghost rest': seq<nat>)
    requires here < n < link.Length && Around(link[..], n, here, rest, built) && next == Head(rest)
             && Ends(built, first, last)
    modifies link
    ensures Threaded(link[..], rest', n) && Growing(link[..], Push(built, here), n) && UpTo(Push(built, here), here)
    ensures next' == Head(rest') == here + 1 && Ends(Push(built, here), first', last')
    ensures rest' == if rest != [] && rest[0] == here + 1 then rest else [here + 1] + rest
  {
    next', rest' := Expand(link, n, here, next, rest, built);
    first', last' := PushNext(link, n, here, here, first, last, rest', built);
  }

  /** How a visit changes the two lists. */
  ghost predicate Visited(pattern: string, c: char, here: nat, rest: seq<nat>, built: seq<nat>, rest': seq<nat>,
                          built': seq<nat>)
    requires here <= |pattern|
  {
    if At(pattern, here) == '*'
    then rest' == (if rest != [] && rest[0] == here + 1 then rest else [here + 1] + rest) && built' == Push(built, here)
    else rest' == rest && built' == if here < |pattern| && Accepts(pattern[here], c) then Push(built, here + 1)
        else built
  }

  lemma {:induction false} VisitedMeans(pattern: string, target: string, t: nat, here: nat, rest: seq<nat>,
                                        built: seq<nat>,
                                        rest': seq<nat>, built': seq<nat>)
    requires t < |target| && here <= |pattern| && InPattern(pattern, rest) && InPattern(pattern, built)
    requires Visited(pattern, target[t], here, rest, built, rest', built')
    ensures InPattern(pattern, [here] + rest) && InPattern(pattern, rest') && InPattern(pattern, built')
    ensures Any(pattern, [here] + rest, target, t) || Any(pattern, built, target, t + 1)
       <==> Any(pattern, rest', target, t) || Any(pattern, built', target, t + 1)
  {
    if At(pattern, here) == '*' {
      VisitStar(pattern, target, t, here, rest, rest', built, built');
    } else {
      VisitOther(pattern, target, t, here, rest, built, built');
    }
  }

  /** Visit one position: build the next round's list and find the next position of this one. */
  method Visiting(link: array<int>, pattern: string, c: char, here: nat, first: int, last: int, ghost rest: seq<nat>,
                  ghost built: seq<nat>)
    returns (next: int, first': int, last': int, ghost rest': seq<nat>, ghost built': seq<nat>)
    requires |pattern| < link.Length && CString(pattern) && c != '\0' && here <= |pattern| && Ends(built, first, last)
    requires Around(link[..], |pattern|, here, rest, built) && link[here] == Head(rest)
    modifies link
    ensures Threaded(link[..], rest', |pattern|) && Growing(link[..], built', |pattern|)
    ensures Above(rest', here) && (rest' != [] ==> UpTo(built', rest'[0]))
    ensures next == Head(rest') && Ends(built', first', last') && Visited(pattern, c, here, rest, built, rest', built')
  {
    next, first', last', rest', built' := link[here], first, last, rest, built;
    EndAcceptsNothing(pattern, here, c);
    if At(pattern, here) == '*' {
      next, first', last', rest' := StarStep(link, |pattern|, here, next, first, last, rest, built);
      built' := Push(built, here);
    } else {
      if At(pattern, here) != '?' && ToLower(At(pattern, here)) != ToLower(c) {
        return;
      }
      first', last' := PushNext(link, |pattern|, here, here + 1, first, last, rest, built);
      built' := Push(built, here + 1);
    }
  }

  method VisitPosition(link: array<int>, pattern: string, target: string, t: nat, here: nat, first: int, last: int,
                       ghost todo: seq<nat>, ghost built: seq<nat>)
    returns (next: int, first': int, last': int, ghost todo': seq<nat>, ghost built': seq<nat>)
    requires |pattern| < link.Length && CString(pattern) && CString(target) && Ends(built, first, last)
    requires Round(link[..], pattern, target, t, todo, built) && todo != [] && here == todo[0]
    modifies link
    ensures Round(link[..], pattern, target, t, todo', built') && next == Head(todo') && Ends(built', first', last')
    ensures todo' == [] || here < todo'[0]
  {
    ghost var rest := todo[1..];
    ThreadedTail(link[..], todo, |pattern|);
    assert todo == [here] + rest;
    next, first', last', todo', built' := Visiting(link, pattern, target[t], here, first, last, rest, built);
    VisitedMeans(pattern, target, t, here, rest, built, todo', built');
  }

  /** One round: from the positions for target position t to those for the next one. */
  method NextRound(link: array<int>, pattern: string, target: string, t: nat, first: int, ghost xs: seq<nat>)
    returns (first': int, last': int, ghost ys: seq<nat>)
    requires |pattern| < link.Length && CString(pattern) && CString(target) && t < |target|
    requires Threaded(link[..], xs, |pattern|) && xs != [] && first == xs[0]
    requires Matches(pattern, 0, target, 0) <==> Any(pattern, xs, target, t)
    modifies link
    ensures Growing(link[..], ys, |pattern|) && Ends(ys, first', last')
    ensures Matches(pattern, 0, target, 0) <==> Any(pattern, ys, target, t + 1)
  {
    ghost var todo := xs;
    first', last', ys := first, -1, [];
    var here := first;
    while here >= 0
      invariant Round(link[..], pattern, target, t, todo, ys) && here == Head(todo) && Ends(ys, first', last')
      decreases if todo == [] then 0 else |pattern| + 1 - todo[0]
    {
      here, first', last', todo, ys := VisitPosition(link, pattern, target, t, here, first', last', todo, ys);
    }
  }

  /** At the end of the target only stars may be left of the pattern. */
  lemma {:induction false} MatchesEmpty(pattern: string, p: nat, target: string)
    requires p <= |pattern|
    ensures Matches(pattern, p, target, |target|) <==> forall i :: p <= i < |pattern| ==> pattern[i] == '*'
    decreases |pattern| - p
  {
    if p < |pattern| {
      MatchesEmpty(pattern, p + 1, target);
    }
  }

  /** The largest position decides: what follows it also follows every smaller one. */
  lemma {:induction false} LastDecides(pattern: string, xs: seq<nat>, target: string)
    requires InPattern(pattern, xs) && xs != [] && Ascending(xs)
    ensures Any(pattern, xs, target, |target|) <==> Matches(pattern, xs[|xs| - 1], target, |target|)
  {
    forall i | 0 <= i < |xs|
      ensures Matches(pattern, xs[i], target, |target|) ==> Matches(pattern, xs[|xs| - 1], target, |target|)
    {
      MatchesEmpty(pattern, xs[i], target);
      MatchesEmpty(pattern, xs[|xs| - 1], target);
    }
  }

  /** Skip the stars at the end of the pattern; the rest matches nothing unless it is empty. */
  method SkipStars(pattern: string, p: nat, target: string) returns (empty: bool)
    requires p <= |pattern| && CString(pattern)
    ensures empty <==> Matches(pattern, p, target, |target|)
  {
    var last := p;
    while At(pattern, last) == '*'
      invariant p <= last <= |pattern| && forall i :: p <= i < last ==> pattern[i] == '*'
      decreases |pattern| - last
    {
      last := last + 1;
    }
    MatchesEmpty(pattern, p, target);
    empty := At(pattern, last) == '\0';
  }

  /** True exactly when the recursive, case-insensitive meaning of * and ? accepts the target. */
  method WildMatch(pattern: string, target: string) returns (matched: bool)
    requires CString(pattern) && CString(target) && |pattern| < MAXNAMLEN
    ensures matched <==> Matches(pattern, 0, target, 0)
  {
    var link := new int[MAXNAMLEN](_ => 0);
    var first, last := 0, 0;
    link[0] := -1;
    ghost var xs: seq<nat> := [0];
    AnyOne(pattern, 0, target, 0);
    for t := 0 to |target|
      invariant Threaded(link[..], xs, |pattern|) && xs != [] && Ends(xs, first, last)
      invariant Matches(pattern, 0, target, 0) <==> Any(pattern, xs, target, t)
    {
      first, last, xs := NextRound(link, pattern, target, t, first, xs);
      if last == -1 {
        return false;
      }
      ghost var was := link[..];
      link[last] := -1;
      assert link[..] == was[last := -1];
      GrowingDone(was, xs, |pattern|);
    }
    LastDecides(pattern, xs, target);
    matched := SkipStars(pattern, last, target);
  }
}
