/** Wildcard matching with one backtrack point against the recursive definition. */
module Glob {

  /** Anchored matching: `*` stands for any run of characters, everything else for itself. */
  predicate Matches(pattern: string, name: string)
    decreases |pattern| + |name|
  {
    if pattern == "" then name == ""
    else if pattern[0] == '*' then Matches(pattern[1..], name) || (name != "" && Matches(pattern, name[1..]))
    else name != "" && pattern[0] == name[0] && Matches(pattern[1..], name[1..])
  }

  /** The rest of the pattern from `p` matches the rest of the name from `n`. */
  ghost predicate From(pattern: string, name: string, p: nat, n: nat)
    requires p <= |pattern| && n <= |name|
  {
    Matches(pattern[p..], name[n..])
  }

  lemma Unfold(pattern: string, name: string, p: nat, n: nat)
    requires p <= |pattern| && n <= |name|
    ensures p == |pattern| ==> (From(pattern, name, p, n) <==> n == |name|)
    ensures p < |pattern| && pattern[p] == '*' ==>
              (From(pattern, name, p, n) <==>
                From(pattern, name, p + 1, n) || (n < |name| && From(pattern, name, p, n + 1)))
    ensures p < |pattern| && pattern[p] != '*' ==>
              (From(pattern, name, p, n) <==> n < |name| && pattern[p] == name[n] && From(pattern, name, p + 1, n + 1))
  {
    if p < |pattern| {
      assert pattern[p..][1..] == pattern[p + 1..];
    }
    if n < |name| {
      assert name[n..][1..] == name[n + 1..];
    }
  }

  /** A star absorbs whatever lies before a later match. */
  lemma {:induction false} StarAbsorbs(pattern: string, name: string, p: nat, n: nat, k: nat)
    requires p < |pattern| && pattern[p] == '*' && n <= k <= |name|
    requires From(pattern, name, p, k) || From(pattern, name, p + 1, k)
    ensures From(pattern, name, p, n)
    decreases k - n
  {
    hide From;
    Unfold(pattern, name, p, n);
    if n < k {
      StarAbsorbs(pattern, name, p, n + 1, k);
    }
  }

  /** What a star reaches. */
  lemma {:induction false} StarReaches(pattern: string, name: string, p: nat, n: nat) returns (k: nat)
    requires p < |pattern| && pattern[p] == '*' && n <= |name| && From(pattern, name, p, n)
    ensures n <= k <= |name| && From(pattern, name, p + 1, k)
    decreases |name| - n
  {
    hide From;
    Unfold(pattern, name, p, n);
    if From(pattern, name, p + 1, n) {
      k := n;
    } else {
      k := StarReaches(pattern, name, p, n + 1);
    }
  }

  /** Literals are matched one for one. */
  lemma {:induction false} LiteralRun(pattern: string, name: string, p: nat, q: nat, k: nat)
    requires p <= q <= |pattern| && k <= |name| && From(pattern, name, p, k)
    requires forall i | p <= i < q :: pattern[i] != '*'
    ensures k + (q - p) <= |name| && From(pattern, name, q, k + (q - p))
    decreases q - p
  {
    hide From;
    if p < q {
      Unfold(pattern, name, p, k);
      LiteralRun(pattern, name, p + 1, q, k + 1);
    }
  }

  // ----- the loop's state -----

  /** Where the loop stands. With a star seen at `star`, `mark` is where the current try after it began, and the pattern
      since then is literal and has matched so far. */
  ghost predicate Trying(pattern: string, name: string, p: nat, n: nat, star: int, mark: nat) {
    && p <= |pattern| && n <= |name|
    && (star >= 0 ==>
          && star < p && pattern[star] == '*' && mark <= n && n - mark == p - star - 1
          && forall i | star < i < p :: pattern[i] != '*')
  }

  /** A try after the star, beginning at `k`, succeeds. */
  ghost predicate Try(pattern: string, name: string, star: int, k: nat) {
    0 <= star < |pattern| && k <= |name| && From(pattern, name, star + 1, k)
  }

  /** A later try after the star would succeed. */
  ghost predicate LaterTry(pattern: string, name: string, star: int, mark: nat) {
    exists k: nat :: mark < k && Try(pattern, name, star, k)
  }

  /** Whatever a later try could match, a new star here matches too: the old star can be forgotten. */
  lemma NewStarSuffices(pattern: string, name: string, p: nat, n: nat, star: int, mark: nat)
    requires Trying(pattern, name, p, n, star, mark) && p < |pattern| && pattern[p] == '*'
             && LaterTry(pattern, name, star, mark)
    ensures From(pattern, name, p, n)
  {
    hide From;
    var k: nat :| mark < k && Try(pattern, name, star, k);
    LiteralRun(pattern, name, star + 1, p, k);
    StarAbsorbs(pattern, name, p, n, k + (p - star - 1));
  }

  /** At the end of the name no later try has room. */
  lemma NoRoom(pattern: string, name: string, p: nat, star: int, mark: nat)
    requires Trying(pattern, name, p, |name|, star, mark)
    ensures star < |pattern| && !LaterTry(pattern, name, star, mark)
  {
    hide From;
    forall k: nat | mark < k ensures !Try(pattern, name, star, k) {
      if Try(pattern, name, star, k) {
        LiteralRun(pattern, name, star + 1, p, k);
      }
    }
  }

  lemma OnlyStarsLeft(pattern: string, name: string, p: nat)
    requires p <= |pattern|
    ensures From(pattern, name, p, |name|) <==> forall i | p <= i < |pattern| :: pattern[i] == '*'
    decreases |pattern| - p
  {
    hide From;
    Unfold(pattern, name, p, |name|);
    if p < |pattern| {
      OnlyStarsLeft(pattern, name, p + 1);
    }
  }

  /** A name whose stars, if any, are not before its last character. */
  ghost predicate Plain(name: string) {
    forall i | 0 <= i < |name| - 1 :: name[i] != '*'
  }

  /** A final literal star of the name can only be absorbed by stars. */
  lemma FinalStar(pattern: string, name: string, p: nat)
    requires p <= |pattern| && name != "" && name[|name| - 1] == '*' && From(pattern, name, p, |name| - 1)
    ensures From(pattern, name, p, |name|)
    decreases |pattern| - p
  {
    hide From;
    Unfold(pattern, name, p, |name| - 1);
    Unfold(pattern, name, p, |name|);
    if p < |pattern| && pattern[p] == '*' && From(pattern, name, p + 1, |name| - 1) {
      FinalStar(pattern, name, p + 1);
    }
  }

  // ----- the matcher -----

  /** One run of the loop from a state, and the final check. */
  function Run(pattern: string, name: string, p: nat, n: nat, star: int, mark: nat): bool
    requires p <= |pattern| && n <= |name| && mark <= n && -1 <= star < p + 1 && star < |pattern|
    decreases |name| - mark, |name| - n + |pattern| - p
  {
    if n == |name| then AllStars(pattern, p)
    else if p < |pattern| && pattern[p] == name[n] then Run(pattern, name, p + 1, n + 1, star, mark)
    else if p < |pattern| && pattern[p] == '*' then Run(pattern, name, p + 1, n, p, n)
    else if star >= 0 then Run(pattern, name, star + 1, mark + 1, star, mark + 1)
    else false
  }

  predicate AllStars(pattern: string, p: nat)
    requires p <= |pattern|
    decreases |pattern| - p
  {
    p == |pattern| || (pattern[p] == '*' && AllStars(pattern, p + 1))
  }

  method GlobMatch(pattern: string, name: string) returns (yes: bool)
    ensures yes == Run(pattern, name, 0, 0, -1, 0)
    ensures Plain(name) ==> (yes <==> Matches(pattern, name))
  {
    hide Matches;
    var p, n := 0, 0;
    var star, mark := -1, 0;
    while n < |name|
      invariant 0 <= p <= |pattern| && 0 <= mark <= n <= |name| && -1 <= star < p && star < |pattern|
      invariant Run(pattern, name, p, n, star, mark) == Run(pattern, name, 0, 0, -1, 0)
      decreases |name| - mark, |name| - n + |pattern| - p
    {
      if p < |pattern| && pattern[p] == name[n] {
        p, n := p + 1, n + 1;
      } else if p < |pattern| && pattern[p] == '*' {
        star, mark := p, n;
        p := p + 1;
      } else if star >= 0 {
        p := star + 1;
        mark := mark + 1;
        n := mark;
      } else {
        if Plain(name) {
          RunMatches(pattern, name, 0, 0, -1, 0);
          Whole(pattern, name);
        }
        return false;
      }
    }
    ghost var q := p;
    while p < |pattern| && pattern[p] == '*'
      invariant q <= p <= |pattern| && AllStars(pattern, p) == AllStars(pattern, q)
    {
      p := p + 1;
    }
    yes := p == |pattern|;
    if Plain(name) {
      RunMatches(pattern, name, 0, 0, -1, 0);
      Whole(pattern, name);
    }
  }

  lemma Whole(pattern: string, name: string)
    ensures From(pattern, name, 0, 0) == Matches(pattern, name)
  {
    assert pattern[0..] == pattern && name[0..] == name;
  }

  lemma {:induction false} AllStarsAre(pattern: string, p: nat)
    requires p <= |pattern|
    ensures AllStars(pattern, p) <==> forall i | p <= i < |pattern| :: pattern[i] == '*'
    decreases |pattern| - p
  {
    if p < |pattern| {
      AllStarsAre(pattern, p + 1);
    }
  }

  /** From every state the loop decides whether the current or a later try succeeds. */
  lemma {:induction false} RunMatches(pattern: string, name: string, p: nat, n: nat, star: int, mark: nat)
    requires Plain(name) && Trying(pattern, name, p, n, star, mark) && mark <= n && -1 <= star < |pattern|
             && star < p + 1
    ensures Run(pattern, name, p, n, star, mark) <==> From(pattern, name, p, n) || LaterTry(pattern, name, star, mark)
    decreases |name| - mark, |name| - n + |pattern| - p
  {
    hide From;
    Unfold(pattern, name, p, n);
    if n == |name| {
      NoRoom(pattern, name, p, star, mark);
      OnlyStarsLeft(pattern, name, p);
      AllStarsAre(pattern, p);
    } else if p < |pattern| && pattern[p] == name[n] {
      if pattern[p] != '*' {
        RunMatches(pattern, name, p + 1, n + 1, star, mark);
      } else {
        LastCharacter(pattern, name, p, n, star, mark);
      }
    } else if p < |pattern| && pattern[p] == '*' {
      RunMatches(pattern, name, p + 1, n, p, n);
      NewStar(pattern, name, p, n);
      if LaterTry(pattern, name, star, mark) {
        NewStarSuffices(pattern, name, p, n, star, mark);
      }
    } else if star >= 0 {
      RunMatches(pattern, name, star + 1, mark + 1, star, mark + 1);
      NextTry(pattern, name, star, mark);
    }
  }

  /** A star matches from here or from somewhere later. */
  lemma NewStar(pattern: string, name: string, p: nat, n: nat)
    requires p < |pattern| && pattern[p] == '*' && n <= |name|
    ensures From(pattern, name, p, n) <==> From(pattern, name, p + 1, n) || LaterTry(pattern, name, p, n)
  {
    hide From;
    if From(pattern, name, p, n) {
      var k := StarReaches(pattern, name, p, n);
      assert k > n ==> Try(pattern, name, p, k);
    }
    if From(pattern, name, p + 1, n) {
      StarAbsorbs(pattern, name, p, n, n);
    }
    if LaterTry(pattern, name, p, n) {
      var k: nat :| n < k && Try(pattern, name, p, k);
      StarAbsorbs(pattern, name, p, n, k);
    }
  }

  lemma NextTry(pattern: string, name: string, star: int, mark: nat)
    requires 0 <= star < |pattern| && mark < |name|
    ensures LaterTry(pattern, name, star, mark) <==>
            From(pattern, name, star + 1, mark + 1) || LaterTry(pattern, name, star, mark + 1)
  {
    hide From;
    if LaterTry(pattern, name, star, mark) {
      var k: nat :| mark < k && Try(pattern, name, star, k);
      assert k == mark + 1 || mark + 1 < k;
    }
    if From(pattern, name, star + 1, mark + 1) {
      assert Try(pattern, name, star, mark + 1);
    }
  }

  /** The name's last character is a star and the pattern has one here: taking them for each other is harmless. */
  lemma LastCharacter(pattern: string, name: string, p: nat, n: nat, star: int, mark: nat)
    requires Plain(name) && Trying(pattern, name, p, n, star, mark) && mark <= n && -1 <= star < |pattern|
             && star < p + 1
    requires n < |name| && p < |pattern| && pattern[p] == '*' == name[n]
    ensures Run(pattern, name, p, n, star, mark) <==> From(pattern, name, p, n) || LaterTry(pattern, name, star, mark)
  {
    hide From;
    assert n == |name| - 1;
    AllStarsAre(pattern, p + 1);
    OnlyStarsLeft(pattern, name, p + 1);
    Unfold(pattern, name, p, n);
    Unfold(pattern, name, p, n + 1);
    if From(pattern, name, p + 1, n) {
      FinalStar(pattern, name, p + 1);
    }
    if LaterTry(pattern, name, star, mark) {
      NewStarSuffices(pattern, name, p, n, star, mark);
    }
  }

  // ----- when the loop is right -----

  /** A star before the last character of the name: the pattern that stops at it matches, but the loop says no. */
  lemma StarInNameBreaks(name: string, i: nat)
    requires i + 1 < |name| && name[i] == '*' && forall k | 0 <= k < i :: name[k] != '*'
    ensures Matches(name[..i + 1], name) && !Run(name[..i + 1], name, 0, 0, -1, 0)
  {
    var pattern := name[..i + 1];
    LiteralsMatch(name, i, 0);
    Whole(pattern, name);
    RunLiterals(name, i, 0);
  }

  lemma {:induction false} LiteralsMatch(name: string, i: nat, k: nat)
    requires k <= i < |name| && name[i] == '*' && forall j | 0 <= j < i :: name[j] != '*'
    ensures From(name[..i + 1], name, k, k)
    decreases i - k
  {
    hide From;
    var pattern := name[..i + 1];
    Unfold(pattern, name, k, k);
    if k < i {
      LiteralsMatch(name, i, k + 1);
    } else {
      Unfold(pattern, name, i + 1, |name|);
      StarAbsorbs(pattern, name, i, i, |name|);
    }
  }

  lemma {:induction false} RunLiterals(name: string, i: nat, k: nat)
    requires k <= i && i + 1 < |name| && name[i] == '*' && forall j | 0 <= j < i :: name[j] != '*'
    ensures !Run(name[..i + 1], name, k, k, -1, 0)
    decreases i - k
  {
    if k < i {
      RunLiterals(name, i, k + 1);
    } else {
      assert !Run(name[..i + 1], name, i + 1, i + 1, -1, 0);
    }
  }

  /** For a given name the loop agrees with the definition on every pattern exactly when no star stands before the
      name's last character. */
  lemma RightExactly(name: string)
    ensures Plain(name) <==> forall pattern: string :: Run(pattern, name, 0, 0, -1, 0) == Matches(pattern, name)
  {
    if Plain(name) {
      forall pattern: string ensures Run(pattern, name, 0, 0, -1, 0) == Matches(pattern, name) {
        RunMatches(pattern, name, 0, 0, -1, 0);
        Whole(pattern, name);
      }
    } else {
      var i := FirstStar(name);
      StarInNameBreaks(name, i);
    }
  }

  lemma FirstStar(name: string) returns (i: nat)
    requires !Plain(name)
    ensures i + 1 < |name| && name[i] == '*' && forall k | 0 <= k < i :: name[k] != '*'
  {
    i := 0;
    while name[i] != '*'
      invariant i < |name| - 1 && forall k | 0 <= k < i :: name[k] != '*'
      decreases |name| - i
    {
      i := i + 1;
    }
  }
}
