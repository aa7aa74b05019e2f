/**
 What it means for a pattern to match, without recursion: the target is cut into pieces, one for each character of the
 pattern.
 */
module Wildcards {
  import opened WildMatch

  /** The same character, or the same letter of the ASCII alphabet in the other case. */
  predicate SameLetter(a: char, b: char) {
    || a == b
    || ('A' <= a <= 'Z' && b as int == a as int + 32)
    || ('A' <= b <= 'Z' && a as int == b as int + 32)
  }

  /** The piece of the target from x to y is any text for a *, any character for a ?, and else the character itself. */
  predicate Stands(c: char, target: string, x: int, y: int) {
    && 0 <= x <= y <= |target|
    && (c == '*' || (y == x + 1 && (c == '?' || SameLetter(c, target[x]))))
  }

  /** The target from t on is cut at these places into pieces for the characters of the pattern from p on. */
  ghost predicate Cut(pattern: string, p: nat, target: string, t: nat, at: seq<nat>)
    requires p <= |pattern|
  {
    && |at| == |pattern| - p + 1 && at[0] == t && at[|pattern| - p] == |target|
    && forall i {:trigger at[i]} :: 0 <= i < |pattern| - p ==> Stands(pattern[p + i], target, at[i], at[i + 1])
  }

  lemma {:induction false} AcceptsIff(p: char, c: char)
    ensures Accepts(p, c) <==> p == '?' || SameLetter(p, c)
  {
    LowerIs(p);
    LowerIs(c);
  }

  lemma {:induction false} LowerIs(c: char)
    ensures ToLower(c) as int == if 'A' <= c <= 'Z' then c as int + 32 else c as int
  {
  }

  /** The pieces of a target that matches. */
  lemma {:induction false} CutFor(pattern: string, p: nat, target: string, t: nat) returns (at: seq<nat>)
    requires p <= |pattern| && t <= |target| && Matches(pattern, p, target, t)
    ensures Cut(pattern, p, target, t, at)
    decreases |pattern| - p, |target| - t
  {
    if p == |pattern| {
      at := [t];
    } else if pattern[p] == '*' && !Matches(pattern, p + 1, target, t) {
      var more := CutFor(pattern, p, target, t + 1);
      at := more[0 := t];
      Lengthen(pattern, p, target, t, more, at);
    } else {
      var u := if pattern[p] == '*' then t else t + 1;
      var more := CutFor(pattern, p + 1, target, u);
      at := [t] + more;
      if pattern[p] != '*' {
        AcceptsIff(pattern[p], target[t]);
      }
      Prefixed(pattern, p, target, t, u, more, at);
    }
  }

  /** A star's piece may begin one earlier. */
  lemma {:induction false} Lengthen(pattern: string, p: nat, target: string, t: nat, more: seq<nat>, at: seq<nat>)
    requires p < |pattern| && pattern[p] == '*' && Cut(pattern, p, target, t + 1, more) && at == more[0 := t]
    ensures Cut(pattern, p, target, t, at)
  {
    forall i {:trigger at[i]} | 0 <= i < |pattern| - p
      ensures Stands(pattern[p + i], target, at[i], at[i + 1])
    {
      assert Stands(pattern[p + i], target, more[i], more[i + 1]);
    }
  }

  lemma {:induction false} Prefixed(pattern: string, p: nat, target: string, t: nat, u: nat, more: seq<nat>,
                                    at: seq<nat>)
    requires p < |pattern| && Cut(pattern, p + 1, target, u, more) && at == [t] + more
    requires Stands(pattern[p], target, t, u)
    ensures Cut(pattern, p, target, t, at)
  {
    forall i {:trigger at[i]} | 0 <= i < |pattern| - p
      ensures Stands(pattern[p + i], target, at[i], at[i + 1])
    {
      if i > 0 {
        assert more[i - 1] == at[i] && more[i] == at[i + 1] && pattern[p + 1 + (i - 1)] == pattern[p + i];
      }
    }
  }

  /** A target that can be cut matches. */
  lemma {:induction false} CutMatches(pattern: string, p: nat, target: string, t: nat, at: seq<nat>)
    requires p <= |pattern| && t <= |target| && Cut(pattern, p, target, t, at)
    ensures Matches(pattern, p, target, t)
    decreases |pattern| - p, |target| - t
  {
    if p < |pattern| {
      assert Stands(pattern[p + 0], target, at[0], at[1]);
      if pattern[p] == '*' && at[1] > t {
        Shorten(pattern, p, target, t, at);
        CutMatches(pattern, p, target, t + 1, at[0 := t + 1]);
      } else {
        Rest(pattern, p, target, t, at);
        CutMatches(pattern, p + 1, target, at[1], at[1..]);
        if pattern[p] != '*' {
          AcceptsIff(pattern[p], target[t]);
        }
      }
    }
  }

  lemma {:induction false} Shorten(pattern: string, p: nat, target: string, t: nat, at: seq<nat>)
    requires p < |pattern| && Cut(pattern, p, target, t, at) && pattern[p] == '*' && at[1] > t
    ensures Cut(pattern, p, target, t + 1, at[0 := t + 1]) && t < |target|
  {
    var less := at[0 := t + 1];
    assert Stands(pattern[p + 0], target, at[0], at[1]);
    forall i {:trigger less[i]} | 0 <= i < |pattern| - p
      ensures Stands(pattern[p + i], target, less[i], less[i + 1])
    {
      assert Stands(pattern[p + i], target, at[i], at[i + 1]);
    }
  }

  lemma {:induction false} Rest(pattern: string, p: nat, target: string, t: nat, at: seq<nat>)
    requires p < |pattern| && Cut(pattern, p, target, t, at)
    ensures Cut(pattern, p + 1, target, at[1], at[1..])
  {
    var rest := at[1..];
    forall i {:trigger rest[i]} | 0 <= i < |pattern| - p - 1
      ensures Stands(pattern[p + 1 + i], target, rest[i], rest[i + 1])
    {
      assert at[i + 1] == rest[i] && pattern[p + (i + 1)] == pattern[p + 1 + i];
    }
  }

  /** A pattern matches a target exactly if the target can be cut into pieces that its characters stand for. */
  lemma {:induction false} MatchesIff(pattern: string, target: string)
    ensures Matches(pattern, 0, target, 0) <==> exists at: seq<nat> :: Cut(pattern, 0, target, 0, at)
  {
    if Matches(pattern, 0, target, 0) {
      var at := CutFor(pattern, 0, target, 0);
    }
    if exists at: seq<nat> :: Cut(pattern, 0, target, 0, at) {
      var at: seq<nat> :| Cut(pattern, 0, target, 0, at);
      CutMatches(pattern, 0, target, 0, at);
    }
  }
}
