/**
 TextDiff.Diff of GeneratorRunner.cs: an edit script found by a longest-common-subsequence table
 over the lines left after trimming the common prefix and suffix.
 */
module TextDiff {
  import opened Basics

  type line = string

  datatype Op = Keep(text: line) | Delete(text: line) | Insert(text: line)

  const TABLE_LIMIT := 4_000_000

  /** The text an edit script starts from: its kept and deleted lines. */
  function OldText(ops: seq<Op>): (s: seq<line>)
  {
    if ops == [] then []
    else OldText(ops[..|ops| - 1]) + if ops[|ops| - 1].Insert? then [] else [ops[|ops| - 1].text]
  }

  /** The text an edit script produces: its kept and inserted lines. */
  function NewText(ops: seq<Op>): (s: seq<line>)
  {
    if ops == [] then []
    else NewText(ops[..|ops| - 1]) + if ops[|ops| - 1].Delete? then [] else [ops[|ops| - 1].text]
  }

  function Kept(ops: seq<Op>): (s: seq<line>)
  {
    if ops == [] then []
    else Kept(ops[..|ops| - 1]) + if ops[|ops| - 1].Keep? then [ops[|ops| - 1].text] else []
  }

  // -- Common subsequences -------------------------------------------------------

  /** `s` can be obtained from `a` by deleting elements. */
  predicate Subsequence(s: seq<line>, a: seq<line>)
  {
    s == [] || (a != [] && if s[0] == a[0] then Subsequence(s[1..], a[1..]) else Subsequence(s, a[1..]))
  }

  predicate Common(s: seq<line>, a: seq<line>, b: seq<line>)
  {
    Subsequence(s, a) && Subsequence(s, b)
  }

  lemma {:induction false} SubsequenceCons(s: seq<line>, a: seq<line>, x: line)
    requires Subsequence(s, a)
    ensures Subsequence(s, [x] + a)
    decreases |s|, |a|, 1
  {
    assert ([x] + a)[1..] == a;
    if s != [] && s[0] == x {
      TailIsSubsequence(s, a);
    }
  }

  lemma {:induction false} TailIsSubsequence(s: seq<line>, a: seq<line>)
    requires s != [] && Subsequence(s, a)
    ensures Subsequence(s[1..], a)
    decreases |s|, |a|, 0
  {
    assert [a[0]] + a[1..] == a;
    if s[0] == a[0] {
      SubsequenceCons(s[1..], a[1..], a[0]);
    } else {
      TailIsSubsequence(s, a[1..]);
      SubsequenceCons(s[1..], a[1..], a[0]);
    }
  }

  /** The last line of `a + [x]` either ends the subsequence or is not used at all. */
  lemma {:induction false} SubsequenceSnoc(s: seq<line>, a: seq<line>, x: line)
    requires Subsequence(s, a + [x])
    ensures Subsequence(s, a) || (s != [] && s[|s| - 1] == x && Subsequence(s[..|s| - 1], a))
  {
    if s != [] && a != [] {
      assert (a + [x])[1..] == a[1..] + [x];
      if s[0] == a[0] {
        SubsequenceSnoc(s[1..], a[1..], x);
        if !Subsequence(s, a) {
          assert s[..|s| - 1][1..] == s[1..][..|s| - 2];
        }
      } else {
        SubsequenceSnoc(s, a[1..], x);
      }
    }
  }

  lemma {:induction false} InitIsSubsequence(s: seq<line>, a: seq<line>)
    requires s != [] && Subsequence(s, a)
    ensures Subsequence(s[..|s| - 1], a)
  {
    if |s| > 1 {
      if s[0] == a[0] {
        InitIsSubsequence(s[1..], a[1..]);
        assert s[..|s| - 1][1..] == s[1..][..|s| - 2];
      } else {
        InitIsSubsequence(s, a[1..]);
      }
    }
  }

  // -- Longest common subsequences -----------------------------------------------

  /** The recurrence the table tabulates. */
  function Lcs(a: seq<line>, b: seq<line>): (n: nat)
  {
    if a == [] || b == [] then 0
    else if a[0] == b[0] then Lcs(a[1..], b[1..]) + 1
    else Max(Lcs(a[1..], b), Lcs(a, b[1..]))
  }

  /** No common subsequence is longer than `k`. */
  ghost predicate AtMost(a: seq<line>, b: seq<line>, k: int)
  {
    forall s: seq<line> | Common(s, a, b) :: |s| <= k
  }

  /** The recurrence bounds every common subsequence, not only the greedy one. */
  lemma {:induction false} LcsBound(s: seq<line>, a: seq<line>, b: seq<line>)
    requires Common(s, a, b)
    ensures |s| <= Lcs(a, b)
    decreases |a| + |b|
  {
    if s != [] {
      if a[0] == b[0] {
        if s[0] == a[0] {
          LcsBound(s[1..], a[1..], b[1..]);
        } else {
          LcsBound(s, a[1..], b[1..]);
        }
      } else if s[0] == a[0] {
        LcsBound(s, a, b[1..]);
      } else {
        LcsBound(s, a[1..], b);
      }
    }
  }

  /** Leaving out the first line of either text loses at most one line. */
  lemma {:induction false} LcsStep(a: seq<line>, b: seq<line>)
    ensures a != [] ==> Lcs(a[1..], b) <= Lcs(a, b) <= Lcs(a[1..], b) + 1
    ensures b != [] ==> Lcs(a, b[1..]) <= Lcs(a, b) <= Lcs(a, b[1..]) + 1
    decreases |a| + |b|
  {
    if a != [] && b != [] {
      LcsStep(a[1..], b);
      LcsStep(a, b[1..]);
    }
  }

  lemma AtMostLcs(a: seq<line>, b: seq<line>)
    ensures AtMost(a, b, Lcs(a, b))
  {
    forall s: seq<line> | Common(s, a, b) ensures |s| <= Lcs(a, b) {
      LcsBound(s, a, b);
    }
  }

  lemma AtMostCons(a: seq<line>, b: seq<line>, x: line, k: int)
    requires AtMost(a, b, k)
    ensures AtMost([x] + a, [x] + b, k + 1)
  {
    forall s: seq<line> | Common(s, [x] + a, [x] + b) ensures |s| <= k + 1 {
      assert ([x] + a)[1..] == a && ([x] + b)[1..] == b;
      assert Common([], a, b);
      if s != [] {
        assert Common(if s[0] == x then s[1..] else s, a, b);
      }
    }
  }

  lemma AtMostSnoc(a: seq<line>, b: seq<line>, x: line, k: int)
    requires AtMost(a, b, k)
    ensures AtMost(a + [x], b + [x], k + 1)
  {
    forall s: seq<line> | Common(s, a + [x], b + [x]) ensures |s| <= k + 1 {
      SubsequenceSnoc(s, a, x);
      SubsequenceSnoc(s, b, x);
      if Common(s, a, b) {
      } else {
        if Subsequence(s, a) { InitIsSubsequence(s, a); }
        if Subsequence(s, b) { InitIsSubsequence(s, b); }
        assert Common(s[..|s| - 1], a, b);
      }
    }
  }

  lemma {:induction false} AtMostPrepended(p: seq<line>, a: seq<line>, b: seq<line>, k: int)
    requires AtMost(a, b, k)
    ensures AtMost(p + a, p + b, |p| + k)
  {
    if p == [] {
      assert p + a == a && p + b == b;
    } else {
      AtMostPrepended(p[1..], a, b, k);
      AtMostCons(p[1..] + a, p[1..] + b, p[0], |p| - 1 + k);
      assert p + a == [p[0]] + (p[1..] + a);
      assert p + b == [p[0]] + (p[1..] + b);
    }
  }

  lemma {:induction false} AtMostAppended(a: seq<line>, b: seq<line>, q: seq<line>, k: int)
    requires AtMost(a, b, k)
    ensures AtMost(a + q, b + q, k + |q|)
  {
    if q == [] {
      assert a + q == a && b + q == b;
    } else {
      var init, x := q[..|q| - 1], q[|q| - 1];
      AtMostAppended(a, b, init, k);
      AtMostSnoc(a + init, b + init, x, k + |init|);
      assert a + q == a + init + [x];
      assert b + q == b + init + [x];
    }
  }

  // -- Edit scripts ----------------------------------------------------------------

  lemma SnocOp(ops: seq<Op>, op: Op)
    ensures OldText(ops + [op]) == OldText(ops) + if op.Insert? then [] else [op.text]
    ensures NewText(ops + [op]) == NewText(ops) + if op.Delete? then [] else [op.text]
    ensures Kept(ops + [op]) == Kept(ops) + if op.Keep? then [op.text] else []
  {
    assert (ops + [op])[..|ops|] == ops;
  }

  lemma {:induction false} SnocSubsequence(s: seq<line>, a: seq<line>, x: line)
    requires Subsequence(s, a)
    ensures Subsequence(s, a + [x]) && Subsequence(s + [x], a + [x])
  {
    if a == [] {
      assert s + [x] == [x] && a + [x] == [x];
    } else {
      assert (a + [x])[1..] == a[1..] + [x];
      if s == [] {
        SnocSubsequence([], a[1..], x);
        assert s + [x] == [x];
        SubsequenceCons([x], a[1..] + [x], a[0]);
        assert [a[0]] + (a[1..] + [x]) == a + [x];
        assert [] + [x] == [x];
      } else if s[0] == a[0] {
        SnocSubsequence(s[1..], a[1..], x);
        assert (s + [x])[1..] == s[1..] + [x];
      } else {
        SnocSubsequence(s, a[1..], x);
      }
    }
  }

  /** The kept lines are a common subsequence of the two texts of any script. */
  lemma {:induction false} KeptIsCommon(ops: seq<Op>)
    ensures Common(Kept(ops), OldText(ops), NewText(ops))
  {
    if ops != [] {
      var init, op := ops[..|ops| - 1], ops[|ops| - 1];
      KeptIsCommon(init);
      SnocSubsequence(Kept(init), OldText(init), op.text);
      SnocSubsequence(Kept(init), NewText(init), op.text);
      assert Kept(init) + [] == Kept(init) && OldText(init) + [] == OldText(init);
      assert NewText(init) + [] == NewText(init);
    }
  }

  /** One operation like `like` for each line. */
  function Script(lines: seq<line>, like: Op): (ops: seq<Op>)
    ensures |ops| == |lines|
  {
    if lines == [] then []
    else Script(lines[..|lines| - 1], like) + [like.(text := lines[|lines| - 1])]
  }

  lemma {:induction false} ScriptTexts(ops: seq<Op>, lines: seq<line>, like: Op)
    ensures OldText(ops + Script(lines, like)) == OldText(ops) + if like.Insert? then [] else lines
    ensures NewText(ops + Script(lines, like)) == NewText(ops) + if like.Delete? then [] else lines
    ensures |Kept(ops + Script(lines, like))| == |Kept(ops)| + if like.Keep? then |lines| else 0
  {
    NothingAdded(OldText(ops));
    NothingAdded(NewText(ops));
    if lines == [] {
      assert ops + [] == ops;
    } else {
      var init, op := lines[..|lines| - 1], like.(text := lines[|lines| - 1]);
      var before := ops + Script(init, like);
      ScriptTexts(ops, init, like);
      SnocOp(before, op);
      ScriptLast(ops, lines, like);
      LastLine(OldText(ops), lines);
      LastLine(NewText(ops), lines);
      NothingAdded(OldText(before));
      NothingAdded(NewText(before));
    }
  }

  lemma NothingAdded(s: seq<line>)
    ensures s + [] == s
  {
  }

  lemma LastLine(s: seq<line>, lines: seq<line>)
    requires lines != []
    ensures s + lines[..|lines| - 1] + [lines[|lines| - 1]] == s + lines
  {
  }

  lemma ScriptLast(ops: seq<Op>, lines: seq<line>, like: Op)
    requires lines != []
    ensures ops + Script(lines, like) ==
            ops + Script(lines[..|lines| - 1], like) + [like.(text := lines[|lines| - 1])]
  {
  }

  lemma {:induction false} DeletesFirstAppend(ops: seq<Op>, lines: seq<line>, like: Op)
    requires DeletesFirst(ops) && (like.Delete? ==> !EndsInInsert(ops))
    ensures DeletesFirst(ops + Script(lines, like))
    ensures EndsInInsert(ops + Script(lines, like)) ==> if lines == [] then EndsInInsert(ops) else like.Insert?
  {
    if lines == [] {
      assert ops + [] == ops;
    } else {
      var init, op := lines[..|lines| - 1], like.(text := lines[|lines| - 1]);
      DeletesFirstAppend(ops, init, like);
      DeletesFirstSnoc(ops + Script(init, like), op);
      ScriptLast(ops, lines, like);
    }
  }

  /** Within a change, the deletions come before the insertions. */
  predicate DeletesFirst(ops: seq<Op>)
  {
    forall i | 0 <= i < |ops| - 1 :: ops[i].Insert? ==> !ops[i + 1].Delete?
  }

  predicate EndsInInsert(ops: seq<Op>)
  {
    ops != [] && ops[|ops| - 1].Insert?
  }

  lemma DeletesFirstSnoc(ops: seq<Op>, op: Op)
    requires DeletesFirst(ops) && (op.Delete? ==> !EndsInInsert(ops))
    ensures DeletesFirst(ops + [op])
  {
  }

  // -- Diff ------------------------------------------------------------------------

  /** Diff trims `p` lines in front and `k` behind: neither end can be extended. */
  predicate Trims(a: seq<line>, b: seq<line>, p: nat, k: nat)
  {
    && p + k <= |a| && p + k <= |b|
    && a[..p] == b[..p] && (p == |a| || p == |b| || a[p] != b[p])
    && a[|a| - k..] == b[|b| - k..]
    && (p + k == |a| || p + k == |b| || a[|a| - 1 - k] != b[|b| - 1 - k])
  }

  /** The trimmed lines are kept. */
  predicate KeepsEnds(a: seq<line>, p: nat, k: nat, ops: seq<Op>)
    requires p + k <= |a|
  {
    && p + k <= |ops|
    && ops[..p] == Script(a[..p], Keep("")) && ops[|ops| - k..] == Script(a[|a| - k..], Keep(""))
  }

  /** How many leading lines Diff trims from `i` on. */
  function CommonPrefix(a: seq<line>, b: seq<line>, i: nat): (n: nat)
    requires i <= |a| && i <= |b|
    ensures i <= n <= |a| && n <= |b|
    ensures n == |a| || n == |b| || a[n] != b[n]
    decreases |a| - i
  {
    if i < |a| && i < |b| && a[i] == b[i] then CommonPrefix(a, b, i + 1) else i
  }

  /** How many trailing lines Diff trims after `k` of them, never reaching into the prefix. */
  function CommonSuffix(a: seq<line>, b: seq<line>, start: nat, k: nat): (n: nat)
    requires start + k <= |a| && start + k <= |b|
    ensures k <= n && start + n <= |a| && start + n <= |b|
    ensures start + n == |a| || start + n == |b| || a[|a| - 1 - n] != b[|b| - 1 - n]
    decreases |a| - k
  {
    if start + k < |a| && start + k < |b| && a[|a| - 1 - k] == b[|b| - 1 - k]
    then CommonSuffix(a, b, start, k + 1) else k
  }

  ghost predicate IsTable(t: array2<int>, a: seq<line>, b: seq<line>, i: int, j: int)
    reads t
  {
    && t.Length0 == |a| + 1 && t.Length1 == |b| + 1
    && forall p, q {:trigger t[p, q]} :: 0 <= p <= |a| && 0 <= q <= |b| && (p > i || (p == i && q > j) || p == |a| || q == |b|)
                      ==> t[p, q] == Lcs(a[p..], b[q..])
  }

  method BuildTable(a: seq<line>, b: seq<line>) returns (t: array2<int>)
    ensures fresh(t) && IsTable(t, a, b, -1, |b|)
  {
    var n, m := |a|, |b|;
    t := new int[n + 1, m + 1]((_, _) => 0);
    var i := n - 1;
    while i >= 0
      invariant -1 <= i < n
      invariant IsTable(t, a, b, i, m)
    {
      var j := m - 1;
      while j >= 0
        invariant -1 <= j < m
        invariant IsTable(t, a, b, i, j)
      {
        assert a[i..][1..] == a[i + 1..] && b[j..][1..] == b[j + 1..];
        t[i, j] := if a[i] == b[j] then t[i + 1, j + 1] + 1 else Max(t[i + 1, j], t[i, j + 1]);
        j := j - 1;
      }
      i := i - 1;
    }
  }

  /** `result` extends `ops` by a script for the first `x` and `y` lines, with nothing kept lost. */
  ghost predicate Walked(ops: seq<Op>, a: seq<line>, b: seq<line>, x: nat, y: nat, result: seq<Op>)
    requires x <= |a| && y <= |b|
  {
    && OldText(result) == OldText(ops) + a[..x]
    && NewText(result) == NewText(ops) + b[..y]
    && |Kept(result)| + Lcs(a[x..], b[y..]) == |Kept(ops)| + Lcs(a, b)
  }

  lemma TakeNext(s: seq<line>, a: seq<line>, x: nat)
    requires x < |a|
    ensures s + a[..x] + [a[x]] == s + a[..x + 1]
    ensures a[x..][1..] == a[x + 1..] && a[x..][0] == a[x]
  {
  }

  lemma TakeAll(s: seq<line>, a: seq<line>, x: nat)
    requires x <= |a|
    ensures s + a[..x] + a[x..] == s + a
    ensures s + a[..x] + a[x..] + [] == s + a && s + a[..x] + [] == s + a[..x]
  {
  }

  /** The last insertion, if the script ends in one, was made because deleting loses a line. */
  ghost predicate Pending(a: seq<line>, b: seq<line>, x: nat, y: nat, result: seq<Op>)
    requires x <= |a| && y <= |b|
  {
    EndsInInsert(result) ==> x < |a| && 0 < y && Lcs(a[x + 1..], b[y - 1..]) < Lcs(a[x..], b[y..])
  }

  /** An insertion is made only where deleting loses a line, so no deletion can follow it. */
  lemma NoDeleteNext(a: seq<line>, b: seq<line>, x: nat, y: nat)
    requires x < |a| && 0 < y < |b| && a[x] != b[y] && Lcs(a[x + 1..], b[y..]) >= Lcs(a[x..], b[y + 1..])
    ensures Lcs(a[x + 1..], b[y - 1..]) >= Lcs(a[x..], b[y..])
  {
    assert a[x..][1..] == a[x + 1..] && b[y..][1..] == b[y + 1..] && b[y - 1..][1..] == b[y..];
    assert a[x..][0] == a[x] && b[y..][0] == b[y];
    LcsStep(a[x + 1..], b[y - 1..]);
  }

  /** What the walk has done when it is at (x, y). */
  ghost predicate Reached(ops: seq<Op>, a: seq<line>, b: seq<line>, x: nat, y: nat, result: seq<Op>)
    requires x <= |a| && y <= |b|
  {
    Walked(ops, a, b, x, y, result) && ops <= result && DeletesFirst(result) && Pending(a, b, x, y, result)
  }

  lemma WalkBegins(ops: seq<Op>, a: seq<line>, b: seq<line>)
    requires DeletesFirst(ops) && !EndsInInsert(ops)
    ensures Reached(ops, a, b, 0, 0, ops)
  {
    assert a[0..] == a && b[0..] == b;
    assert OldText(ops) + a[..0] == OldText(ops) && NewText(ops) + b[..0] == NewText(ops);
  }

  lemma WalkKeep(ops: seq<Op>, a: seq<line>, b: seq<line>, x: nat, y: nat, result: seq<Op>)
    requires x < |a| && y < |b| && Reached(ops, a, b, x, y, result)
    requires a[x] == b[y]
    ensures Reached(ops, a, b, x + 1, y + 1, result + [Keep(a[x])])
  {
    SnocOp(result, Keep(a[x]));
    TakeNext(OldText(ops), a, x);
    TakeNext(NewText(ops), b, y);
    DeletesFirstSnoc(result, Keep(a[x]));
  }

  lemma WalkDelete(ops: seq<Op>, a: seq<line>, b: seq<line>, x: nat, y: nat, result: seq<Op>)
    requires x < |a| && y < |b| && Reached(ops, a, b, x, y, result)
    requires a[x] != b[y] && Lcs(a[x + 1..], b[y..]) >= Lcs(a[x..], b[y + 1..])
    ensures Reached(ops, a, b, x + 1, y, result + [Delete(a[x])])
  {
    SnocOp(result, Delete(a[x]));
    TakeNext(OldText(ops), a, x);
    TakeNext(NewText(ops), b, y);
    if y > 0 {
      NoDeleteNext(a, b, x, y);
    }
    DeletesFirstSnoc(result, Delete(a[x]));
  }

  lemma WalkInsert(ops: seq<Op>, a: seq<line>, b: seq<line>, x: nat, y: nat, result: seq<Op>)
    requires x < |a| && y < |b| && Reached(ops, a, b, x, y, result)
    requires a[x] != b[y] && Lcs(a[x + 1..], b[y..]) < Lcs(a[x..], b[y + 1..])
    ensures Reached(ops, a, b, x, y + 1, result + [Insert(b[y])])
  {
    SnocOp(result, Insert(b[y]));
    TakeNext(OldText(ops), a, x);
    TakeNext(NewText(ops), b, y);
    DeletesFirstSnoc(result, Insert(b[y]));
  }

  /** The walk from (0, 0) through the table keeps as many lines as the recurrence allows. */
  method Backtrack(a: seq<line>, b: seq<line>, ops: seq<Op>) returns (result: seq<Op>)
    requires DeletesFirst(ops) && !EndsInInsert(ops)
    ensures OldText(result) == OldText(ops) + a && NewText(result) == NewText(ops) + b
    ensures |Kept(result)| == |Kept(ops)| + Lcs(a, b)
    ensures ops <= result && DeletesFirst(result)
  {
    var n, m := |a|, |b|;
    var t := BuildTable(a, b);
    result := ops;
    var x, y := 0, 0;
    WalkBegins(ops, a, b);
    while x < n && y < m
      invariant 0 <= x <= n && 0 <= y <= m
      invariant IsTable(t, a, b, -1, m)
      invariant Reached(ops, a, b, x, y, result)
      decreases n - x + m - y
    {
      if a[x] == b[y] {
        WalkKeep(ops, a, b, x, y, result);
        result := result + [Keep(a[x])];
        x, y := x + 1, y + 1;
      } else if t[x + 1, y] >= t[x, y + 1] {
        WalkDelete(ops, a, b, x, y, result);
        result := result + [Delete(a[x])];
        x := x + 1;
      } else {
        WalkInsert(ops, a, b, x, y, result);
        result := result + [Insert(b[y])];
        y := y + 1;
      }
    }
    ghost var walked := result;
    result := AddAll(result, a[x..], Delete(""));
    result := AddAll(result, b[y..], Insert(""));
    Remaining(ops, a, b, x, y, walked);
  }

  /** What is left of the one text is deleted, what is left of the other inserted. */
  lemma Remaining(ops: seq<Op>, a: seq<line>, b: seq<line>, x: nat, y: nat, walked: seq<Op>)
    requires x <= |a| && y <= |b| && (x == |a| || y == |b|) && Reached(ops, a, b, x, y, walked)
    ensures var result := walked + Script(a[x..], Delete("")) + Script(b[y..], Insert(""));
            && OldText(result) == OldText(ops) + a && NewText(result) == NewText(ops) + b
            && |Kept(result)| == |Kept(ops)| + Lcs(a, b) && DeletesFirst(result)
  {
    var deleted := walked + Script(a[x..], Delete(""));
    ScriptTexts(walked, a[x..], Delete(""));
    ScriptTexts(deleted, b[y..], Insert(""));
    TakeAll(OldText(ops), a, x);
    TakeAll(NewText(ops), b, y);
    if x < |a| {
      DeletesFirstAppend(walked, a[x..], Delete(""));
    } else {
      assert deleted == walked;
    }
    DeletesFirstAppend(deleted, b[y..], Insert(""));
  }

  /** Appends one operation per line. */
  method AddAll(ops: seq<Op>, lines: seq<line>, like: Op) returns (result: seq<Op>)
    ensures result == ops + Script(lines, like)
  {
    result := ops;
    for i := 0 to |lines|
      invariant result == ops + Script(lines[..i], like)
    {
      assert lines[..i + 1][..i] == lines[..i] && lines[..i + 1][i] == lines[i];
      result := result + [like.(text := lines[i])];
    }
    assert lines[..|lines|] == lines;
  }

  /** The loops that trim the common lines: the middles are a[start..|a| - tail], b[start..|b| - tail]. */
  method Trim(a: seq<line>, b: seq<line>) returns (start: nat, tail: nat)
    ensures Trims(a, b, start, tail)
  {
    start := TrimFront(a, b);
    var endA, endB := TrimBack(a, b, start);
    tail := |a| - 1 - endA;
    assert |a| - tail == endA + 1 && |b| - tail == endB + 1;
  }

  method TrimFront(a: seq<line>, b: seq<line>) returns (start: nat)
    ensures start == CommonPrefix(a, b, 0) && a[..start] == b[..start]
  {
    start := 0;
    while start < |a| && start < |b| && a[start] == b[start]
      invariant 0 <= start <= |a| && start <= |b|
      invariant forall k | 0 <= k < start :: a[k] == b[k]
      invariant CommonPrefix(a, b, start) == CommonPrefix(a, b, 0)
    {
      start := start + 1;
    }
  }

  method TrimBack(a: seq<line>, b: seq<line>, start: nat) returns (endA: int, endB: int)
    requires start <= |a| && start <= |b|
    ensures |a| - 1 - endA == |b| - 1 - endB == CommonSuffix(a, b, start, 0)
    ensures a[endA + 1..] == b[endB + 1..]
  {
    endA, endB := |a| - 1, |b| - 1;
    while endA >= start && endB >= start && a[endA] == b[endB]
      invariant start - 1 <= endA < |a| && start - 1 <= endB < |b| && |a| - endA == |b| - endB
      invariant a[endA + 1..] == b[endB + 1..]
    {
      OneMoreCommon(a, b, endA, endB);
      endA, endB := endA - 1, endB - 1;
    }
    SuffixIs(a, b, start, 0, |a| - 1 - endA);
  }

  /** The suffix that matches and cannot be extended is the one the function finds. */
  lemma {:induction false} SuffixIs(a: seq<line>, b: seq<line>, start: nat, k: nat, tail: nat)
    requires k <= tail && start + tail <= |a| && start + tail <= |b| && a[|a| - tail..] == b[|b| - tail..]
    requires start + tail == |a| || start + tail == |b| || a[|a| - 1 - tail] != b[|b| - 1 - tail]
    ensures CommonSuffix(a, b, start, k) == tail
    decreases tail - k
  {
    if k < tail {
      assert a[|a| - 1 - k] == a[|a| - tail..][tail - 1 - k] && b[|b| - 1 - k] == b[|b| - tail..][tail - 1 - k];
      SuffixIs(a, b, start, k + 1, tail);
    }
  }

  lemma OneMoreCommon(a: seq<line>, b: seq<line>, i: nat, j: nat)
    requires i < |a| && j < |b| && a[i] == b[j] && a[i + 1..] == b[j + 1..]
    ensures a[i..] == b[j..]
  {
    assert a[i..] == [a[i]] + a[i + 1..] && b[j..] == [b[j]] + b[j + 1..];
  }

  /** The lines between the trimmed ends: by the table if it is small enough, else replaced whole. */
  method DiffMiddle(a: seq<line>, b: seq<line>, ops: seq<Op>) returns (result: seq<Op>)
    requires DeletesFirst(ops) && !EndsInInsert(ops)
    ensures OldText(result) == OldText(ops) + a && NewText(result) == NewText(ops) + b
    ensures |a| * |b| <= 4_000_000 ==> |Kept(result)| == |Kept(ops)| + Lcs(a, b)
    ensures ops <= result && DeletesFirst(result)
  {
    if |a| * |b| > TABLE_LIMIT {
      result := AddAll(ops, a, Delete(""));
      result := AddAll(result, b, Insert(""));
      Replaced(ops, a, b);
    } else {
      result := Backtrack(a, b, ops);
    }
  }

  lemma Replaced(ops: seq<Op>, a: seq<line>, b: seq<line>)
    requires DeletesFirst(ops) && !EndsInInsert(ops)
    ensures var result := ops + Script(a, Delete("")) + Script(b, Insert(""));
            OldText(result) == OldText(ops) + a && NewText(result) == NewText(ops) + b && DeletesFirst(result)
  {
    var deleted := ops + Script(a, Delete(""));
    ScriptTexts(ops, a, Delete(""));
    ScriptTexts(deleted, b, Insert(""));
    DeletesFirstAppend(ops, a, Delete(""));
    DeletesFirstAppend(deleted, b, Insert(""));
    assert NewText(ops) + [] == NewText(ops) && OldText(ops) + a + [] == OldText(ops) + a;
  }

  /** Trimming loses no common subsequence: the middles' count plus the trimmed lines bounds the texts. */
  lemma TrimmedBound(a: seq<line>, b: seq<line>, start: nat, tail: nat)
    requires start + tail <= |a| && start + tail <= |b|
    requires a[..start] == b[..start] && a[|a| - tail..] == b[|b| - tail..]
    ensures AtMost(a, b, start + Lcs(a[start..|a| - tail], b[start..|b| - tail]) + tail)
  {
    var midA, midB := a[start..|a| - tail], b[start..|b| - tail];
    AtMostLcs(midA, midB);
    AtMostPrepended(a[..start], midA, midB, Lcs(midA, midB));
    AtMostAppended(a[..start] + midA, a[..start] + midB, a[|a| - tail..], start + Lcs(midA, midB));
    assert a == a[..start] + midA + a[|a| - tail..];
    assert b == b[..start] + midB + b[|b| - tail..];
  }

  lemma Reassemble(a: seq<line>, start: nat, end: nat)
    requires start <= end <= |a|
    ensures a[..start] + a[start..end] + a[end..] == a
  {
  }

  /** The script of two texts that share their first and last lines. */
  method DiffTrimmed(front: seq<line>, midA: seq<line>, midB: seq<line>, back: seq<line>) returns (result: seq<Op>)
    ensures OldText(result) == front + midA + back && NewText(result) == front + midB + back
    ensures |midA| * |midB| <= 4_000_000 ==> |Kept(result)| == |front| + Lcs(midA, midB) + |back|
    ensures DeletesFirst(result) && |front| + |back| <= |result|
    ensures result[..|front|] == Script(front, Keep("")) && result[|result| - |back|..] == Script(back, Keep(""))
  {
    var first := AddAll([], front, Keep(""));
    ScriptTexts([], front, Keep(""));
    DeletesFirstAppend([], front, Keep(""));
    assert first == Script(front, Keep("")) && [] + front == front;
    var middle := DiffMiddle(midA, midB, first);
    result := AddAll(middle, back, Keep(""));
    BackKept(first, middle, back);
  }

  lemma BackKept(first: seq<Op>, middle: seq<Op>, back: seq<line>)
    requires first <= middle && DeletesFirst(middle)
    ensures var r := middle + Script(back, Keep(""));
            && OldText(r) == OldText(middle) + back && NewText(r) == NewText(middle) + back
            && |Kept(r)| == |Kept(middle)| + |back| && DeletesFirst(r)
            && |r| == |middle| + |back| && r[..|first|] == first && r[|r| - |back|..] == Script(back, Keep(""))
  {
    ScriptTexts(middle, back, Keep(""));
    DeletesFirstAppend(middle, back, Keep(""));
    EndsOf(first, middle, Script(back, Keep("")));
  }

  lemma EndsOf(first: seq<Op>, middle: seq<Op>, last: seq<Op>)
    requires first <= middle
    ensures var r := middle + last; r[..|first|] == first && r[|r| - |last|..] == last
  {
  }

  /**
   The script turns `a` into `b`; deletions come before insertions, the common ends are kept, and unless the
   product of the lengths of the middles exceeds four million no script keeps more lines.
   */
  method Diff(a: seq<line>, b: seq<line>) returns (result: seq<Op>)
    ensures OldText(result) == a && NewText(result) == b
    ensures Common(Kept(result), a, b)
    ensures DeletesFirst(result)
    ensures forall p, k | Trims(a, b, p, k) :: Longest(a, b, p, k, result)
  {
    var start, tail := Trim(a, b);
    result := DiffTrimmed(a[..start], a[start..|a| - tail], b[start..|b| - tail], a[|a| - tail..]);
    DiffIs(a, b, start, tail, result);
  }

  lemma DiffIs(a: seq<line>, b: seq<line>, start: nat, tail: nat, result: seq<Op>)
    requires Trims(a, b, start, tail) && KeepsEnds(a, start, tail, result)
    requires OldText(result) == a[..start] + a[start..|a| - tail] + a[|a| - tail..]
    requires NewText(result) == a[..start] + b[start..|b| - tail] + a[|a| - tail..]
    requires var midA, midB := a[start..|a| - tail], b[start..|b| - tail];
             |midA| * |midB| <= 4_000_000 ==> |Kept(result)| == start + Lcs(midA, midB) + tail
    ensures OldText(result) == a && NewText(result) == b && Common(Kept(result), a, b)
    ensures forall p, k | Trims(a, b, p, k) :: Longest(a, b, p, k, result)
  {
    Spelled(a, b, start, tail, result);
    KeptIsCommon(result);
    TrimmedIsLongest(a, b, start, tail, result);
    TrimIs(a, b, start, tail);
    forall p, k | Trims(a, b, p, k) ensures p == start && k == tail {
      TrimIs(a, b, p, k);
    }
  }

  lemma Spelled(a: seq<line>, b: seq<line>, p: nat, k: nat, result: seq<Op>)
    requires Trims(a, b, p, k)
    requires OldText(result) == a[..p] + a[p..|a| - k] + a[|a| - k..]
    requires NewText(result) == a[..p] + b[p..|b| - k] + a[|a| - k..]
    ensures OldText(result) == a && NewText(result) == b
  {
    Reassemble(a, p, |a| - k);
    Reassemble(b, p, |b| - k);
  }

  /** The trimmed lines are kept, and unless the middles are too long nothing keeps more lines. */
  ghost predicate Longest(a: seq<line>, b: seq<line>, p: nat, k: nat, result: seq<Op>)
    requires Trims(a, b, p, k)
  {
    && KeepsEnds(a, p, k, result)
    && ((|a| - p - k) * (|b| - p - k) <= 4_000_000 ==> AtMost(a, b, |Kept(result)|))
  }

  lemma TrimmedIsLongest(a: seq<line>, b: seq<line>, p: nat, k: nat, result: seq<Op>)
    requires Trims(a, b, p, k) && KeepsEnds(a, p, k, result)
    requires var midA, midB := a[p..|a| - k], b[p..|b| - k];
             |midA| * |midB| <= 4_000_000 ==> |Kept(result)| == p + Lcs(midA, midB) + k
    ensures Longest(a, b, p, k, result)
  {
    assert |a[p..|a| - k]| == |a| - p - k && |b[p..|b| - k]| == |b| - p - k;
    KeptIsLongest(a, b, p, k, |Kept(result)|);
  }

  lemma TrimIs(a: seq<line>, b: seq<line>, p: nat, k: nat)
    requires Trims(a, b, p, k)
    ensures CommonPrefix(a, b, 0) == p && CommonSuffix(a, b, p, 0) == k
  {
    PrefixIs(a, b, 0, p);
    SuffixIs(a, b, p, 0, k);
  }

  lemma {:induction false} PrefixIs(a: seq<line>, b: seq<line>, i: nat, p: nat)
    requires i <= p <= |a| && p <= |b| && a[..p] == b[..p] && (p == |a| || p == |b| || a[p] != b[p])
    ensures CommonPrefix(a, b, i) == p
    decreases p - i
  {
    if i < p {
      assert a[i] == a[..p][i] && b[i] == b[..p][i];
      PrefixIs(a, b, i + 1, p);
    }
  }

  lemma KeptIsLongest(a: seq<line>, b: seq<line>, start: nat, tail: nat, kept: nat)
    requires Trims(a, b, start, tail)
    ensures kept == start + Lcs(a[start..|a| - tail], b[start..|b| - tail]) + tail ==> AtMost(a, b, kept)
  {
    TrimmedBound(a, b, start, tail);
  }
}
