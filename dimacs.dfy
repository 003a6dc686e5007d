/** The clause splitter of the DIMACS reader (dimacs.js:24-34).

    In the DIMACS CNF format a clause is ended by a `0`, not by a line break,
    so the reader flattens the whole file into one list of integers and cuts
    it at the zeros. The literal right after a terminator always starts a new
    clause, even when it is itself a `0`, and a last clause without a
    terminator is still produced. */
module Dimacs {

  /** The first index at or after `j` that holds a `0`, or `|lits|` when there is none. */
  function NextZero(lits: seq<int>, j: nat): (k: nat)
    requires j <= |lits|
    ensures j <= k <= |lits|
    ensures k < |lits| ==> lits[k] == 0
    decreases |lits| - j
  {
    if j == |lits| || lits[j] == 0 then j else NextZero(lits, j + 1)
  }

  /** No `0` lies between `j` and `NextZero(lits, j)`. */
  lemma {:induction false} NextZeroFirst(lits: seq<int>, j: nat)
    requires j <= |lits|
    ensures forall m :: j <= m < NextZero(lits, j) ==> lits[m] != 0
    decreases |lits| - j
  {
    if j < |lits| && lits[j] != 0 {
      NextZeroFirst(lits, j + 1);
    }
  }

  /** The clauses cut out of `lits` from index `i` on: one clause runs from
      `i` (whatever is there) up to the next `0`, and cutting resumes after
      that `0`. */
  function SplitFrom(lits: seq<int>, i: nat): seq<seq<int>>
    decreases |lits| - i
  {
    if i >= |lits| then []
    else
      var j := NextZero(lits, i + 1);
      [lits[i..j]] + SplitFrom(lits, j + 1)
  }

  /** The clauses of the whole input. */
  function Split(lits: seq<int>): (r: seq<seq<int>>)
    ensures |r| <= |lits|
    ensures r == [] <==> lits == []
  {
    SplitFromSize(lits, 0);
    SplitFromEmpty(lits, 0);
    SplitFrom(lits, 0)
  }

  /** There are no more clauses than literals left from `i` on. */
  lemma {:induction false} SplitFromSize(lits: seq<int>, i: nat)
    requires i <= |lits|
    ensures |SplitFrom(lits, i)| <= |lits| - i
    decreases |lits| - i
  {
    if i < |lits| {
      var j := NextZero(lits, i + 1);
      if j < |lits| {
        SplitFromSize(lits, j + 1);
      }
      assert |SplitFrom(lits, i)| == 1 + |SplitFrom(lits, j + 1)|;
    }
  }

  /** No clause is cut exactly when nothing is left from `i` on. */
  lemma SplitFromEmpty(lits: seq<int>, i: nat)
    ensures SplitFrom(lits, i) == [] <==> i >= |lits|
  {
    if i < |lits| {
      assert |SplitFrom(lits, i)| >= 1;
    }
  }

  /** The flat DIMACS body of a list of clauses: each clause followed by its `0`. */
  function Terminated(cs: seq<seq<int>>): seq<int>
  {
    if |cs| == 0 then [] else cs[0] + [0] + Terminated(cs[1..])
  }

  /** The flat body of at least one clause ends in a terminator. */
  lemma {:induction false} TerminatedEndsInZero(cs: seq<seq<int>>)
    requires |cs| > 0
    ensures |Terminated(cs)| > 0 && Terminated(cs)[|Terminated(cs)| - 1] == 0
    decreases |cs|
  {
    if |cs| > 1 {
      TerminatedEndsInZero(cs[1..]);
    }
  }

  /** A clause as the solver expects it: non-empty and free of the terminator. */
  predicate WireClause(c: seq<int>) {
    |c| >= 1 && 0 !in c
  }

  /** `NextZero` is the first terminator: any `k` with no `0` in between that
      sits on a `0` or at the end is it. */
  lemma NextZeroIs(lits: seq<int>, j: nat, k: nat)
    requires j <= k <= |lits|
    requires k < |lits| ==> lits[k] == 0
    requires forall m :: j <= m < k ==> lits[m] != 0
    ensures NextZero(lits, j) == k
    decreases k - j
  {
    if j < k {
      NextZeroIs(lits, j + 1, k);
    }
  }

  /** Every clause cut out is non-empty, and only its first literal can be a
      `0` (the literal right after a terminator). */
  lemma {:induction false} SplitShape(lits: seq<int>, i: nat)
    ensures forall k :: 0 <= k < |SplitFrom(lits, i)| ==> |SplitFrom(lits, i)[k]| >= 1
    ensures forall k, m :: 0 <= k < |SplitFrom(lits, i)| && 1 <= m < |SplitFrom(lits, i)[k]| ==>
      SplitFrom(lits, i)[k][m] != 0
    decreases |lits| - i
  {
    if i < |lits| {
      var j := NextZero(lits, i + 1);
      NextZeroFirst(lits, i + 1);
      var r, rest := SplitFrom(lits, i), SplitFrom(lits, j + 1);
      assert r == [lits[i..j]] + rest;
      SplitShape(lits, j + 1);
      forall m | 1 <= m < j - i ensures r[0][m] != 0 {
        assert r[0][m] == lits[i + m];
      }
      forall k | 1 <= k < |r| ensures r[k] == rest[k - 1] {
      }
    }
  }

  lemma TerminatedCons(c: seq<int>, cs: seq<seq<int>>)
    ensures Terminated([c] + cs) == c + [0] + Terminated(cs)
  {
    assert ([c] + cs)[1..] == cs;
  }

  /** One cut at `i`: the input from `i` on is the clause up to the next
      `0`, that `0` and the rest, or just that clause when no `0` follows. */
  lemma SplitCut(lits: seq<int>, i: nat)
    requires i < |lits|
    ensures var j := NextZero(lits, i + 1);
      (j < |lits| ==> lits[i..] == lits[i..j] + [0] + lits[j + 1..])
      && (j == |lits| ==> lits[i..] == lits[i..j])
  {
    var j := NextZero(lits, i + 1);
    if j < |lits| {
      assert lits[i..j + 1] == lits[i..j] + [0];
      assert lits[i..] == lits[i..j + 1] + lits[j + 1..];
    }
  }

  lemma AppendClause(res: seq<seq<int>>, c: seq<int>, rest: seq<seq<int>>)
    ensures res + ([c] + rest) == (res + [c]) + rest
  {
  }

  /** Terminating one more clause in front keeps the round trip: exact, or
      short of the last `0`. */
  lemma TerminatedStep(full: seq<int>, first: seq<int>, rest: seq<int>, cs: seq<seq<int>>, after: seq<seq<int>>)
    requires full == first + [0] + rest && cs == [first] + after
    requires Terminated(after) == rest || Terminated(after) == rest + [0]
    ensures Terminated(cs) == full || Terminated(cs) == full + [0]
  {
    TerminatedCons(first, after);
    if Terminated(after) != rest {
      assert first + [0] + (rest + [0]) == (first + [0] + rest) + [0];
    }
  }

  /** The round trip from `i` on, given it from after the next terminator. */
  lemma TerminatedCut(lits: seq<int>, i: nat)
    requires i < |lits| && NextZero(lits, i + 1) < |lits|
    requires var after := Terminated(SplitFrom(lits, NextZero(lits, i + 1) + 1));
      var rest := lits[NextZero(lits, i + 1) + 1..];
      after == rest || after == rest + [0]
    ensures Terminated(SplitFrom(lits, i)) == lits[i..] || Terminated(SplitFrom(lits, i)) == lits[i..] + [0]
  {
    var j := NextZero(lits, i + 1);
    SplitCut(lits, i);
    TerminatedStep(lits[i..], lits[i..j], lits[j + 1..], SplitFrom(lits, i), SplitFrom(lits, j + 1));
  }

  /** The round trip from `i` on when no terminator follows: the one clause
      left gets the `0` it was missing. */
  lemma TerminatedLast(lits: seq<int>, i: nat)
    requires i < |lits| && NextZero(lits, i + 1) == |lits|
    ensures Terminated(SplitFrom(lits, i)) == lits[i..] + [0]
  {
    var j := NextZero(lits, i + 1);
    SplitCut(lits, i);
    SplitFromEmpty(lits, j + 1);
    TerminatedStep(lits[i..] + [0], lits[i..j], [], SplitFrom(lits, i), []);
  }

  /** Terminating the clauses again gives back the input from `i` on, or that
      input with the one `0` that its unterminated last clause was missing. */
  lemma {:induction false} TerminatedSplitFrom(lits: seq<int>, i: nat)
    requires i <= |lits|
    ensures Terminated(SplitFrom(lits, i)) == lits[i..] || Terminated(SplitFrom(lits, i)) == lits[i..] + [0]
    decreases |lits| - i
  {
    if i == |lits| {
      assert lits[i..] == [];
    } else if NextZero(lits, i + 1) < |lits| {
      TerminatedSplitFrom(lits, NextZero(lits, i + 1) + 1);
      TerminatedCut(lits, i);
    } else {
      TerminatedLast(lits, i);
    }
  }

  /** Terminating the clauses again gives back the input, or the input with
      the one `0` that its unterminated last clause was missing. */
  lemma TerminatedSplit(lits: seq<int>)
    ensures Terminated(Split(lits)) == lits || Terminated(Split(lits)) == lits + [0]
  {
    TerminatedSplitFrom(lits, 0);
    assert lits[0..] == lits;
  }

  /** `lits` holds, from `i` to its end, exactly the clauses `cs`, each
      followed by its `0`. */
  ghost predicate Encodes(lits: seq<int>, i: nat, cs: seq<seq<int>>)
    decreases |cs|
  {
    if cs == [] then i == |lits|
    else
      i + |cs[0]| < |lits| && lits[i..i + |cs[0]|] == cs[0] && lits[i + |cs[0]|] == 0
      && Encodes(lits, i + |cs[0]| + 1, cs[1..])
  }

  /** Input that continues at `i` with `c`, a `0` and `rest`, read back part by part. */
  lemma HeadParts(lits: seq<int>, i: nat, c: seq<int>, rest: seq<int>)
    requires i <= |lits| && lits[i..] == c + [0] + rest
    ensures i + |c| < |lits| && lits[i..i + |c|] == c && lits[i + |c|] == 0
    ensures lits[i + |c| + 1..] == rest
  {
    var n := |c|;
    var t := lits[i..];
    assert |t| == n + 1 + |rest|;
    assert lits[i + n] == t[n];
    assert lits[i..i + n] == c by {
      forall m | 0 <= m < n ensures lits[i..i + n][m] == c[m] {
        assert lits[i..i + n][m] == t[m];
      }
    }
    assert lits[i + n + 1..] == rest by {
      forall m | 0 <= m < |rest| ensures lits[i + n + 1..][m] == rest[m] {
        assert lits[i + n + 1..][m] == t[n + 1 + m];
      }
    }
  }

  lemma {:induction false} EncodesTerminated(lits: seq<int>, i: nat, cs: seq<seq<int>>)
    requires i <= |lits| && lits[i..] == Terminated(cs)
    ensures Encodes(lits, i, cs)
    decreases |cs|
  {
    if cs == [] {
      assert |lits[i..]| == 0;
    } else {
      HeadParts(lits, i, cs[0], Terminated(cs[1..]));
      EncodesTerminated(lits, i + |cs[0]| + 1, cs[1..]);
    }
  }

  lemma ConsBack(x: seq<seq<int>>, c: seq<int>, y: seq<seq<int>>, cs: seq<seq<int>>)
    requires |cs| > 0 && c == cs[0] && x == [c] + y && y == cs[1..]
    ensures x == cs
  {
  }

  /** Splitting from `i` gives back the wire clauses that `lits` encodes from there. */
  lemma {:induction false} SplitFromEncodes(lits: seq<int>, i: nat, cs: seq<seq<int>>)
    requires Encodes(lits, i, cs)
    requires forall k :: 0 <= k < |cs| ==> WireClause(cs[k])
    ensures SplitFrom(lits, i) == cs
    decreases |cs|
  {
    if cs != [] {
      var n := |cs[0]|;
      forall m | i + 1 <= m < i + n ensures lits[m] != 0 {
        assert lits[m] == lits[i..i + n][m - i] == cs[0][m - i];
      }
      NextZeroIs(lits, i + 1, i + n);
      SplitFromEncodes(lits, i + n + 1, cs[1..]);
      ConsBack(SplitFrom(lits, i), cs[0], SplitFrom(lits, i + n + 1), cs);
    }
  }

  /** Splitting is the inverse of terminating for clauses in the wire format. */
  lemma SplitTerminated(cs: seq<seq<int>>)
    requires forall k :: 0 <= k < |cs| ==> WireClause(cs[k])
    ensures Split(Terminated(cs)) == cs
  {
    var lits := Terminated(cs);
    assert lits[0..] == lits;
    EncodesTerminated(lits, 0, cs);
    SplitFromEncodes(lits, 0, cs);
  }

  /** The splitter as the reader runs it: `i` marks the start of the current
      clause and `j` searches for its terminator (dimacs.js:24-34). */
  method SplitClauses(lits: seq<int>) returns (res: seq<seq<int>>)
    ensures res == Split(lits)
  {
    var i: nat := 0;
    res := [];
    while i < |lits|
      invariant res + SplitFrom(lits, i) == Split(lits)
      decreases |lits| - i
    {
      var j := i + 1;
      while j < |lits| && lits[j] != 0
        invariant i + 1 <= j <= |lits|
        invariant forall m :: i < m < j ==> lits[m] != 0
      {
        j := j + 1;
      }
      NextZeroIs(lits, i + 1, j);
      AppendClause(res, lits[i..j], SplitFrom(lits, j + 1));
      res := res + [lits[i..j]];
      i := j + 1;
    }
    assert res + [] == res;
  }
}
