/**
 test_progs/min_distance.c: the bottom-up edit-distance table, proved against the least
 number of single-character edits (at any position) that turn one word into the other.
 */
module EditDistance {

  // ----- the independent specification: runs of single-character edits -----

  /** One insertion, deletion or substitution, anywhere in the word. */
  datatype Edit = Insert(at: nat, c: char) | Delete(at: nat) | Substitute(at: nat, c: char) {
    predicate AppliesTo(s: string) {
      match this
      case Insert(at, _) => at <= |s|
      case Delete(at) => at < |s|
      case Substitute(at, _) => at < |s|
    }

    function Apply(s: string): string
      requires AppliesTo(s)
    {
      match this
      case Insert(at, c) => s[..at] + [c] + s[at..]
      case Delete(at) => s[..at] + s[at + 1..]
      case Substitute(at, c) => s[..at] + [c] + s[at + 1..]
    }
  }

  /** The edits, in order, turn s into t. */
  ghost predicate Turns(script: seq<Edit>, s: string, t: string) {
    if script == [] then s == t
    else script[0].AppliesTo(s) && Turns(script[1..], script[0].Apply(s), t)
  }

  /** n is the least length of any edit script from s to t. */
  ghost predicate LeastEdits(s: string, t: string, n: nat) {
    && (exists script :: Turns(script, s, t) && |script| == n)
    && (forall script :: Turns(script, s, t) ==> n <= |script|)
  }

  // ----- the recurrence that the table follows -----

  function Min(a: int, b: int, c: int): int {
    var temp := if a < b then a else b;
    if temp < c then temp else c
  }

  /** The table entry for the prefixes s and t: a match copies the diagonal. */
  function Distance(s: string, t: string): int
    decreases |s| + |t|
  {
    if s == [] then |t|
    else if t == [] then |s|
    else
      var s', t' := s[..|s| - 1], t[..|t| - 1];
      if s[|s| - 1] != t[|t| - 1] then 1 + Min(Distance(s', t), Distance(s, t'), Distance(s', t'))
      else Distance(s', t')
  }

  /** Neighbouring entries of the table differ by at most one. */
  lemma {:induction false} Neighbours(s: string, t: string)
    ensures s != [] ==> -1 <= Distance(s, t) - Distance(s[..|s| - 1], t) <= 1
    ensures t != [] ==> -1 <= Distance(s, t) - Distance(s, t[..|t| - 1]) <= 1
    decreases |s| + |t|
  {
    if s != [] && t != [] {
      var s', t' := s[..|s| - 1], t[..|t| - 1];
      Neighbours(s', t);
      Neighbours(s, t');
      Neighbours(s', t');
    }
  }

  /** The exchange argument: copying the diagonal on a match is as good as the minimum of all three. */
  lemma MatchNeedsNoMinimum(s: string, t: string)
    requires s != [] && t != []
    ensures var s', t' := s[..|s| - 1], t[..|t| - 1];
      var cost := if s[|s| - 1] == t[|t| - 1] then 0 else 1;
      Distance(s, t) == Min(1 + Distance(s', t), 1 + Distance(s, t'), cost + Distance(s', t'))
  {
    hide Distance;
    var s', t' := s[..|s| - 1], t[..|t| - 1];
    Entry(s, t);
    Neighbours(s', t);
    Neighbours(s, t');
  }

  /** An inner entry of the table. */
  lemma Entry(s: string, t: string)
    requires s != [] && t != []
    ensures var s', t' := s[..|s| - 1], t[..|t| - 1];
      Distance(s, t) == if s[|s| - 1] != t[|t| - 1] then
                          1 + Min(Distance(s', t), Distance(s, t'), Distance(s', t'))
                        else Distance(s', t')
  {
  }

  // ----- lower bound: a single edit changes the distance by at most one -----

  /** u + mid + v and u + mid' + v, with mid and mid' at most one character long, are within one. */
  lemma {:induction false} OneEditLowersByAtMostOne(u: string, mid: string, mid': string, v: string, t: string)
    requires |mid| <= 1 && |mid'| <= 1
    ensures Distance(u + mid + v, t) <= Distance(u + mid' + v, t) + 1
    decreases |v| + |t|, |v|
  {
    hide Distance;
    var s, s' := u + mid + v, u + mid' + v;
    if v == [] {
      EditAtEnd(u, mid, mid', t);
      assert s == u + mid && s' == u + mid';
    } else if t == [] {
      ToEmptyWord(s);
      ToEmptyWord(s');
    } else {
      var v0, x, t0 := v[..|v| - 1], v[|v| - 1], t[..|t| - 1];
      assert s[..|s| - 1] == u + mid + v0 && s'[..|s'| - 1] == u + mid' + v0;
      OneEditLowersByAtMostOne(u, mid, mid', v0, t);
      OneEditLowersByAtMostOne(u, mid, mid', v0, t0);
      OneEditLowersByAtMostOne(u, mid, mid', v, t0);
      MatchNeedsNoMinimum(s, t);
      MatchNeedsNoMinimum(s', t);
    }
  }

  lemma EditAtEnd(u: string, mid: string, mid': string, t: string)
    requires |mid| <= 1 && |mid'| <= 1
    ensures Distance(u + mid, t) <= Distance(u + mid', t) + 1
  {
    var s, s' := u + mid, u + mid';
    assert mid == [] ==> s == u;
    assert mid' == [] ==> s' == u;
    assert mid != [] ==> s[..|s| - 1] == u;
    assert mid' != [] ==> s'[..|s'| - 1] == u;
    Neighbours(s, t);
    Neighbours(s', t);
    if mid != [] && mid' != [] && t != [] {
      SubstituteLast(s, s', t);
    }
  }

  lemma ToEmptyWord(s: string)
    ensures Distance(s, []) == |s|
  {
  }

  lemma {:induction false} SubstituteLast(s: string, s': string, t: string)
    requires s != [] && s' != [] && t != [] && s[..|s| - 1] == s'[..|s'| - 1]
    ensures Distance(s, t) <= Distance(s', t) + 1
    decreases |t|
  {
    hide Distance;
    var t' := t[..|t| - 1];
    MatchNeedsNoMinimum(s, t);
    MatchNeedsNoMinimum(s', t);
    if t' != [] {
      SubstituteLast(s, s', t');
    } else {
      ToEmptyWord(s);
      ToEmptyWord(s');
    }
  }

  lemma EditStep(e: Edit, s: string, t: string)
    requires e.AppliesTo(s)
    ensures Distance(s, t) <= Distance(e.Apply(s), t) + 1
  {
    var at := e.at;
    match e
    case Insert(_, c) =>
      assert s == s[..at] + [] + s[at..];
      OneEditLowersByAtMostOne(s[..at], [], [c], s[at..], t);
    case Delete(_) =>
      assert s == s[..at] + [s[at]] + s[at + 1..];
      assert e.Apply(s) == s[..at] + [] + s[at + 1..];
      OneEditLowersByAtMostOne(s[..at], [s[at]], [], s[at + 1..], t);
    case Substitute(_, c) =>
      assert s == s[..at] + [s[at]] + s[at + 1..];
      OneEditLowersByAtMostOne(s[..at], [s[at]], [c], s[at + 1..], t);
  }

  lemma {:induction false} DistanceToSelf(s: string)
    ensures Distance(s, s) == 0
    decreases |s|
  {
    if s != [] { DistanceToSelf(s[..|s| - 1]); }
  }

  lemma {:induction false} NoScriptIsShorter(script: seq<Edit>, s: string, t: string)
    requires Turns(script, s, t)
    ensures Distance(s, t) <= |script|
    decreases |script|
  {
    if script == [] {
      DistanceToSelf(s);
    } else {
      EditStep(script[0], s, t);
      NoScriptIsShorter(script[1..], script[0].Apply(s), t);
    }
  }

  // ----- upper bound: a script of exactly that length exists -----

  /** A script keeps working when both words get the same last character. */
  lemma {:induction false} TurnsWithSuffix(script: seq<Edit>, s: string, t: string, c: char)
    requires Turns(script, s, t)
    ensures Turns(script, s + [c], t + [c])
    decreases |script|
  {
    if script != [] {
      var e := script[0];
      assert e.Apply(s + [c]) == e.Apply(s) + [c] by {
        var at := e.at;
        assert (s + [c])[..at] == s[..at];
        assert (s + [c])[at..] == s[at..] + [c];
        if !e.Insert? { assert (s + [c])[at + 1..] == s[at + 1..] + [c]; }
      }
      TurnsWithSuffix(script[1..], e.Apply(s), t, c);
    }
  }

  lemma {:induction false} TurnsConcat(p: seq<Edit>, q: seq<Edit>, s: string, t: string, u: string)
    requires Turns(p, s, t) && Turns(q, t, u)
    ensures Turns(p + q, s, u)
    decreases |p|
  {
    if p == [] {
      assert p + q == q;
    } else {
      assert (p + q)[1..] == p[1..] + q;
      TurnsConcat(p[1..], q, p[0].Apply(s), t, u);
    }
  }

  /** One leading edit, then a script. */
  lemma TurnsCons(e: Edit, p: seq<Edit>, s: string, t: string)
    requires e.AppliesTo(s) && Turns(p, e.Apply(s), t)
    ensures Turns([e] + p, s, t)
  {
    assert ([e] + p)[1..] == p;
  }

  lemma DeleteLast(script: seq<Edit>, s: string, t: string)
    requires s != [] && Turns(script, s[..|s| - 1], t)
    ensures Turns([Delete(|s| - 1)] + script, s, t)
  {
    assert Delete(|s| - 1).Apply(s) == s[..|s| - 1];
    TurnsCons(Delete(|s| - 1), script, s, t);
  }

  lemma InsertLast(script: seq<Edit>, s: string, t: string)
    requires t != [] && Turns(script, s, t[..|t| - 1])
    ensures Turns([Insert(|s|, t[|t| - 1])] + script, s, t)
  {
    var e := Insert(|s|, t[|t| - 1]);
    assert e.Apply(s) == s + [t[|t| - 1]];
    assert t[..|t| - 1] + [t[|t| - 1]] == t;
    TurnsWithSuffix(script, s, t[..|t| - 1], t[|t| - 1]);
    TurnsCons(e, script, s, t);
  }

  lemma ReplaceLast(script: seq<Edit>, s: string, t: string)
    requires s != [] && t != [] && Turns(script, s[..|s| - 1], t[..|t| - 1])
    ensures Turns(if s[|s| - 1] == t[|t| - 1] then script else [Substitute(|s| - 1, t[|t| - 1])] + script, s, t)
  {
    var e := Substitute(|s| - 1, t[|t| - 1]);
    assert s[..|s| - 1] + [s[|s| - 1]] == s && t[..|t| - 1] + [t[|t| - 1]] == t;
    TurnsWithSuffix(script, s[..|s| - 1], t[..|t| - 1], t[|t| - 1]);
    if s[|s| - 1] != t[|t| - 1] {
      assert e.Apply(s) == s[..|s| - 1] + [t[|t| - 1]];
      TurnsCons(e, script, s, t);
    }
  }

  lemma {:induction false} ShortestScript(s: string, t: string) returns (script: seq<Edit>)
    ensures Turns(script, s, t) && |script| == Distance(s, t)
    decreases |s| + |t|
  {
    var differ := s != [] && t != [] && s[|s| - 1] != t[|t| - 1];
    if s == [] && t == [] {
      script := [];
    } else if t == [] || (differ && Distance(s, t) == 1 + Distance(s[..|s| - 1], t)) {
      var p := ShortestScript(s[..|s| - 1], t);
      DeleteLast(p, s, t);
      script := [Delete(|s| - 1)] + p;
    } else if s == [] || (differ && Distance(s, t) == 1 + Distance(s, t[..|t| - 1])) {
      var p := ShortestScript(s, t[..|t| - 1]);
      InsertLast(p, s, t);
      script := [Insert(|s|, t[|t| - 1])] + p;
    } else {
      var p := ShortestScript(s[..|s| - 1], t[..|t| - 1]);
      ReplaceLast(p, s, t);
      script := if differ then [Substitute(|s| - 1, t[|t| - 1])] + p else p;
    }
  }

  /** The recurrence is the least number of edits, over all scripts. */
  lemma DistanceIsLeastEdits(s: string, t: string)
    ensures Distance(s, t) >= 0 && LeastEdits(s, t, Distance(s, t))
  {
    var best := ShortestScript(s, t);
    forall script | Turns(script, s, t) ensures Distance(s, t) <= |script| {
      NoScriptIsShorter(script, s, t);
    }
  }

  // ----- the distance is a metric -----

  lemma ZeroIffEqual(s: string, t: string)
    ensures Distance(s, t) == 0 <==> s == t
  {
    DistanceToSelf(s);
    var script := ShortestScript(s, t);
  }

  lemma {:induction false} Symmetric(s: string, t: string)
    ensures Distance(s, t) == Distance(t, s)
    decreases |s| + |t|
  {
    if s != [] && t != [] {
      Symmetric(s[..|s| - 1], t);
      Symmetric(s, t[..|t| - 1]);
      Symmetric(s[..|s| - 1], t[..|t| - 1]);
    }
  }

  lemma TriangleInequality(s: string, t: string, u: string)
    ensures Distance(s, u) <= Distance(s, t) + Distance(t, u)
  {
    var p := ShortestScript(s, t);
    var q := ShortestScript(t, u);
    TurnsConcat(p, q, s, t, u);
    NoScriptIsShorter(p + q, s, u);
  }

  lemma {:induction false} LengthBounds(s: string, t: string)
    ensures |s| - |t| <= Distance(s, t) && |t| - |s| <= Distance(s, t)
    ensures Distance(s, t) <= if |s| < |t| then |t| else |s|
    decreases |s| + |t|
  {
    if s != [] && t != [] {
      LengthBounds(s[..|s| - 1], t);
      LengthBounds(s, t[..|t| - 1]);
      LengthBounds(s[..|s| - 1], t[..|t| - 1]);
    }
  }

  // ----- the program -----

  /** The characters before the terminator. */
  ghost function Contents(w: array<char>): string
    requires '\0' in w[..]
    reads w
  {
    UpToNul(w[..])
  }

  ghost function UpToNul(s: string): string
  {
    if s == [] || s[0] == '\0' then [] else [s[0]] + UpToNul(s[1..])
  }

  lemma {:induction false} UpToNulIs(s: string, n: nat)
    requires n < |s| && s[n] == '\0' && forall i :: 0 <= i < n ==> s[i] != '\0'
    ensures UpToNul(s) == s[..n]
    decreases n
  {
    if n > 0 {
      UpToNulIs(s[1..], n - 1);
    }
  }

  method Strlen(word: array<char>) returns (i: nat)
    requires '\0' in word[..]
    ensures i < word.Length && Contents(word) == word[..i] && |Contents(word)| == i
  {
    ghost var end :| 0 <= end < word.Length && word[end] == '\0';
    i := 0;
    while word[i] != '\0'
      invariant 0 <= i <= end
      invariant forall j :: 0 <= j < i ==> word[j] != '\0'
      decreases end - i
    {
      i := i + 1;
    }
    UpToNulIs(word[..], i);
    assert word[..][..i] == word[..i];
  }

  /** Rows below `rows`, and in row `rows` the columns up to `cols`, hold the distances of prefixes. */
  ghost predicate Filled(table: array2<int>, s: string, t: string, rows: nat, cols: nat)
    requires table.Length0 == |s| + 1 && table.Length1 == |t| + 1
    reads table
  {
    forall i, j :: 0 <= i <= |s| && 0 <= j <= |t| && (i == 0 || j == 0 || i < rows || (i == rows && j < cols)) ==>
      table[i, j] == Distance(s[..i], t[..j])
  }

  /** The two border loops. */
  method FillBorders(table: array2<int>, len1: nat, len2: nat, ghost s: string, ghost t: string)
    requires |s| == len1 && |t| == len2 && table.Length0 == len1 + 1 && table.Length1 == len2 + 1
    modifies table
    ensures Filled(table, s, t, 1, 0)
  {
    hide Distance;
    for i := 0 to len1 + 1
      invariant forall k :: 0 <= k < i ==> table[k, 0] == k
    {
      table[i, 0] := i;
    }
    for j := 0 to len2 + 1
      invariant forall k :: 0 <= k <= len1 ==> table[k, 0] == k
      invariant forall k :: 0 <= k < j ==> table[0, k] == k
    {
      table[0, j] := j;
    }
    Borders(s, t);
  }

  /** The inner loop: row i + 1 from row i. */
  method FillRow(table: array2<int>, word1: array<char>, word2: array<char>, i: nat, ghost s: string, ghost t: string)
    requires table.Length0 == |s| + 1 && table.Length1 == |t| + 1 && i < |s| <= word1.Length && |t| <= word2.Length
    requires s == word1[..|s|] && t == word2[..|t|] && Filled(table, s, t, i + 1, 0)
    modifies table
    ensures Filled(table, s, t, i + 2, 0)
  {
    hide Distance;
    var len2 := table.Length1 - 1;
    for j := 0 to len2
      invariant Filled(table, s, t, i + 1, j + 1)
    {
      Cell(s, t, i, j);
      if word1[i] != word2[j] {
        table[i + 1, j + 1] := 1 + Min(table[i, j + 1], table[i + 1, j], table[i, j]);
      } else {
        table[i + 1, j + 1] := table[i, j];
      }
    }
  }

  method MinDistance(word1: array<char>, word2: array<char>) returns (d: nat)
    requires '\0' in word1[..] && '\0' in word2[..]
    ensures d == Distance(Contents(word1), Contents(word2))
    ensures LeastEdits(Contents(word1), Contents(word2), d)
  {
    var len1 := Strlen(word1);
    var len2 := Strlen(word2);
    ghost var s, t := word1[..len1], word2[..len2];
    var table := new int[len1 + 1, len2 + 1];
    FillBorders(table, len1, len2, s, t);
    for i := 0 to len1
      invariant Filled(table, s, t, i + 1, 0)
    {
      FillRow(table, word1, word2, i, s, t);
    }
    assert s[..len1] == s && t[..len2] == t;
    DistanceIsLeastEdits(s, t);
    return table[len1, len2];
  }

  lemma Borders(s: string, t: string)
    ensures forall i :: 0 <= i <= |s| ==> Distance(s[..i], t[..0]) == i
    ensures forall j :: 0 <= j <= |t| ==> Distance(s[..0], t[..j]) == j
  {
  }

  /** The recurrence, read at an inner cell of the table. */
  lemma Cell(s: string, t: string, i: nat, j: nat)
    requires i < |s| && j < |t|
    ensures Distance(s[..i + 1], t[..j + 1]) ==
      if s[i] != t[j] then 1 + Min(Distance(s[..i], t[..j + 1]), Distance(s[..i + 1], t[..j]), Distance(s[..i], t[..j]))
      else Distance(s[..i], t[..j])
  {
    assert s[..i + 1][..i] == s[..i] && t[..j + 1][..j] == t[..j];
  }
}
