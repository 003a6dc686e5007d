/**
 * The DPLL solver of sat.js: a clause database of DIMACS clauses (nonzero
 * integers, `-v` the negation of `v`), a watch index from a literal to the
 * ids of the clauses that watch it, and assignments mapping each true
 * literal to the reason it holds.  Unit propagation is a first-in first-out
 * worklist over the watch index; a conflict between two forced literals
 * learns their resolvent; the search branches chronologically on one of at
 * most four candidate literals and can enumerate solutions up to a cap.
 */
module Sat {

  datatype Option<T> = None | Some(value: T)

  /** Why a literal holds: a unit clause of the input, a branching decision,
      or the clause that forced it during propagation. */
  datatype Reason = Given | Assumption | ByClause(clause: seq<int>)

  /** The literals that hold, each with its reason; a literal is false when
      its negation is a key. */
  type Assignment = map<int, Reason>

  /** The two outcomes the solver reports. */
  datatype Status = Satisfied | Contradiction

  /** What `upToTwoUnsatisfiedLits` finds in a clause: some literal is true,
      or the first literals (at most two) that are not false. */
  datatype Scan = ClauseSatisfied | Open(lits: seq<int>)

  /** The result of propagation: a conflict, or the extended assignment. */
  datatype Propagation = Conflict | Assigned(assignment: Assignment)

  /** No element occurs twice: each element is absent from the prefix before it. */
  ghost predicate NoDup(s: seq<int>) {
    s == [] || (NoDup(s[..|s| - 1]) && s[|s| - 1] !in s[..|s| - 1])
  }

  lemma NoDupSnoc(s: seq<int>, x: int)
    ensures NoDup(s + [x]) <==> NoDup(s) && x !in s
  {
    assert (s + [x])[..|s|] == s;
  }

  lemma {:induction false} NoDupFresh(s: seq<int>, i: int)
    requires NoDup(s) && 0 <= i < |s|
    ensures s[i] !in s[..i]
    decreases |s|
  {
    if i < |s| - 1 {
      var t := s[..|s| - 1];
      NoDupFresh(t, i);
      assert t[i] == s[i] && t[..i] == s[..i];
    }
  }

  lemma NoDupDistinct(s: seq<int>, i: int, j: int)
    requires NoDup(s) && 0 <= i < j < |s|
    ensures s[i] != s[j]
  {
    NoDupFresh(s, j);
    assert s[..j][i] == s[i];
  }

  /** No literal holds together with its negation. */
  predicate Consistent(a: Assignment) {
    forall l, m :: l in a && m in a ==> l != -m
  }

  /** `b` keeps every entry of `a`, reason included. */
  predicate Extends(b: Assignment, a: Assignment) {
    forall l :: l in a ==> l in b && b[l] == a[l]
  }

  /** Every literal of every clause, and its negation, is in `U`. */
  predicate ClausesOver(cs: seq<seq<int>>, U: set<int>) {
    forall c, l {:trigger l in c, c in cs} :: c in cs && l in c ==> l in U && -l in U
  }

  /** The literals of the clauses and their negations. */
  function Universe(cs: seq<seq<int>>): (U: set<int>)
    ensures ClausesOver(cs, U)
    ensures (forall c, l :: c in cs && l in c ==> l != 0) ==> 0 !in U
  {
    var lits := set c, l | c in cs && l in c :: l;
    lits + set l | l in lits :: -l
  }

  // ---------------------------------------------------------------------
  // Scanning one clause (sat.js:288-305)

  /** The literals of `c` that are not false, in clause order. */
  function Unfalsified(a: Assignment, c: seq<int>): (r: seq<int>)
    ensures |r| <= |c|
    ensures forall l :: l in r <==> l in c && -l !in a
  {
    if c == [] then []
    else
      assert c == c[..|c| - 1] + [c[|c| - 1]];
      Unfalsified(a, c[..|c| - 1]) + (if -c[|c| - 1] in a then [] else [c[|c| - 1]])
  }

  lemma {:induction false} UnfalsifiedAppend(a: Assignment, s: seq<int>, t: seq<int>)
    ensures Unfalsified(a, s + t) == Unfalsified(a, s) + Unfalsified(a, t)
    decreases |t|
  {
    if t != [] {
      var t' := t[..|t| - 1];
      UnfalsifiedAppend(a, s, t');
      assert (s + t)[..|s + t| - 1] == s + t';
    } else {
      assert s + t == s;
    }
  }

  /** Once two literals that are not false are found, the rest of an
      unsatisfied clause does not change the scan. */
  lemma ScanStops(a: Assignment, c: seq<int>, n: nat)
    requires n <= |c| && |Unfalsified(a, c[..n])| == 2
    requires forall j :: 0 <= j < |c| ==> c[j] !in a
    ensures UpToTwo(a, c) == Open(Unfalsified(a, c[..n]))
  {
    UnfalsifiedAppend(a, c[..n], c[n..]);
    assert c[..n] + c[n..] == c;
  }

  lemma ScanEnds(a: Assignment, c: seq<int>)
    requires |Unfalsified(a, c)| < 2
    requires forall j :: 0 <= j < |c| ==> c[j] !in a
    ensures UpToTwo(a, c) == Open(Unfalsified(a, c))
  {
  }

  /** `upToTwoUnsatisfiedLits`: a clause with a true literal is satisfied;
      otherwise the first two literals that are not false are returned, and
      when fewer than two come back every other literal of the clause is
      false. */
  function UpToTwo(a: Assignment, c: seq<int>): (r: Scan)
    ensures r.ClauseSatisfied? <==> exists i :: 0 <= i < |c| && c[i] in a
    ensures r.Open? ==> |r.lits| <= 2 && forall l :: l in r.lits ==> l in c && l !in a && -l !in a
    ensures r.Open? && |r.lits| < 2 ==> forall l :: l in c ==> l in r.lits || -l in a
  {
    if exists i :: 0 <= i < |c| && c[i] in a then ClauseSatisfied
    else
      var u := Unfalsified(a, c);
      Open(if |u| <= 2 then u else u[..2])
  }

  /** A scan that finds a single literal that is not false: the clause is
      unit on that literal. */
  lemma UnitScan(a: Assignment, c: seq<int>)
    requires UpToTwo(a, c).Open? && |UpToTwo(a, c).lits| == 1
    ensures var p := UpToTwo(a, c).lits[0];
      p in c && p !in a && -p !in a && forall m :: m in c ==> m == p || -m in a
  {
    assert UpToTwo(a, c).lits[0] in UpToTwo(a, c).lits;
  }

  // ---------------------------------------------------------------------
  // Initial unit clauses (sat.js:94-103)

  /** The elements of `s` in order of first occurrence. */
  function Dedup(s: seq<int>): (r: seq<int>)
    ensures NoDup(r)
    ensures forall x :: x in r <==> x in s
  {
    if s == [] then []
    else
      assert s == s[..|s| - 1] + [s[|s| - 1]];
      var r := Dedup(s[..|s| - 1]);
      NoDupSnoc(r, s[|s| - 1]);
      if s[|s| - 1] in r then r else r + [s[|s| - 1]]
  }

  /** Some nonzero literal occurs together with its negation. */
  predicate HasComplementaryPair(u: seq<int>) {
    exists i, j :: 0 <= i < |u| && 0 <= j < |u| && u[i] != 0 && u[i] == -u[j]
  }

  /** The scan `processInitialAssignments` performs: a literal already
      kept is skipped, a literal whose negation is kept ends the scan with
      `None`, any other literal is kept. */
  function InitialUnits(u: seq<int>): Option<seq<int>> {
    if u == [] then Some([])
    else
      var x := u[|u| - 1];
      match InitialUnits(u[..|u| - 1])
      case None => None
      case Some(res) => if x in res then Some(res) else if -x in res then None else Some(res + [x])
  }

  /** A contradiction found in a prefix of the units is never undone. */
  lemma {:induction false} InitialUnitsStaysNone(u: seq<int>, i: nat)
    requires i <= |u| && InitialUnits(u[..i]).None?
    ensures InitialUnits(u).None?
    decreases |u|
  {
    if i < |u| {
      var n := |u| - 1;
      assert u[..n][..i] == u[..i];
      InitialUnitsStaysNone(u[..n], i);
    } else {
      assert u[..i] == u;
    }
  }

  /** What the scan promises: a contradiction exactly when the units contain
      a nonzero literal and its negation, and otherwise the units without
      repetitions, in order of first occurrence. */
  lemma {:induction false} InitialUnitsMeaning(u: seq<int>)
    ensures InitialUnits(u).Some? <==> !HasComplementaryPair(u)
    ensures InitialUnits(u).Some? ==> InitialUnits(u).value == Dedup(u)
    decreases |u|
  {
    if u != [] {
      var n := |u| - 1;
      var p := u[..n];
      var x := u[n];
      assert u == p + [x];
      InitialUnitsMeaning(p);
      if InitialUnits(p).None? {
        PairGrows(u, n);
      } else {
        var res := InitialUnits(p).value;
        assert u[..n + 1] == u;
        PairStep(u, n);
        if x in res {
          if x != 0 && -x in res {
            PairWitness(p, x);
          }
        }
      }
    }
  }

  /** Scanning one more unit: a pair appears exactly when the new literal
      is nonzero and its negation was seen before. */
  lemma PairStep(u: seq<int>, i: nat)
    requires i < |u| && !HasComplementaryPair(u[..i])
    ensures HasComplementaryPair(u[..i + 1]) <==> (u[i] != 0 && -u[i] in u[..i])
  {
    var v := u[..i + 1];
    assert v[..i] == u[..i];
    if u[i] != 0 && -u[i] in u[..i] {
      var k :| 0 <= k < i && u[..i][k] == -u[i];
      assert v[i] != 0 && v[i] == -v[k];
    }
  }

  lemma PairWitness(u: seq<int>, x: int)
    requires x != 0 && x in u && -x in u
    ensures HasComplementaryPair(u)
  {
    var i :| 0 <= i < |u| && u[i] == x;
    var j :| 0 <= j < |u| && u[j] == -x;
    assert u[i] != 0 && u[i] == -u[j];
  }

  lemma PairGrows(u: seq<int>, i: nat)
    requires i <= |u| && HasComplementaryPair(u[..i])
    ensures HasComplementaryPair(u)
  {
    var x, y :| 0 <= x < i && 0 <= y < i && u[..i][x] != 0 && u[..i][x] == -u[..i][y];
    assert u[x] != 0 && u[x] == -u[y];
  }

  // ---------------------------------------------------------------------
  // The watch index (sat.js:10-16, 105-112)

  /** A map from literal to the ids of the clauses that watch it, each list
      without repetitions and in order of insertion (the JavaScript `Set`). */
  type Watches = map<int, seq<nat>>

  ghost predicate WatchesNoDup(w: Watches) {
    forall k :: k in w ==> NoDup(w[k])
  }

  /** Watch lists only grow: every key stays and every list keeps its
      prefix. */
  predicate WatchGrows(w1: Watches, w2: Watches) {
    forall k :: k in w1 ==> k in w2 && w1[k] <= w2[k]
  }

  /** `mapOfSetsAdd`: `id` joins the set under `k`, created if missing; the
      sets only grow, and nothing but `id` under `k` is added. */
  function AddWatch(w: Watches, k: int, id: nat): (r: Watches)
    ensures k in r && id in r[k]
    ensures WatchGrows(w, r)
    ensures forall k' :: k' in w && k' != k ==> r[k'] == w[k']
    ensures forall k', x: nat :: k' in r && x in r[k'] ==> (k' in w && x in w[k']) || (k' == k && x == id)
    ensures WatchesNoDup(w) ==> WatchesNoDup(r)
  {
    if k !in w then (assert multiset([id])[id] == 1; w[k := [id]])
    else if id in w[k] then w
    else (NoDupSnoc(w[k], id); w[k := w[k] + [id]])
  }

  /** The index `buildWatchTwo` builds: each clause watched on its first
      two literals, in clause order. */
  function WatchIndex(cs: seq<seq<int>>): Watches
    requires forall i :: 0 <= i < |cs| ==> |cs[i]| >= 2
  {
    if cs == [] then map[]
    else
      var n := |cs| - 1;
      AddWatch(AddWatch(WatchIndex(cs[..n]), cs[n][0], n), cs[n][1], n)
  }

  /** Every id in the index names a clause whose first or second literal
      is the key, and no list repeats an id. */
  lemma {:induction false} WatchIndexSound(cs: seq<seq<int>>)
    requires forall i :: 0 <= i < |cs| ==> |cs[i]| >= 2
    ensures WatchesNoDup(WatchIndex(cs))
    ensures forall k :: k in WatchIndex(cs) ==> forall id: nat :: id in WatchIndex(cs)[k] ==>
      id < |cs| && (cs[id][0] == k || cs[id][1] == k)
  {
    if cs != [] {
      var n := |cs| - 1;
      var init := cs[..n];
      WatchIndexSound(init);
      var w0 := WatchIndex(init);
      var w1 := AddWatch(w0, cs[n][0], n);
      var w2 := AddWatch(w1, cs[n][1], n);
      assert WatchIndex(cs) == w2;
      forall k, id: nat | k in w2 && id in w2[k] ensures id < |cs| && (cs[id][0] == k || cs[id][1] == k) {
        if !(k == cs[n][1] && id == n) {
          assert k in w1 && id in w1[k];
          if !(k == cs[n][0] && id == n) {
            assert k in w0 && id in w0[k];
            assert cs[id] == init[id];
          }
        }
      }
    }
  }

  /** An id in a watch list stays there as the index grows. */
  lemma InGrown(w: Watches, w': Watches, k: int, id: nat)
    requires WatchGrows(w, w') && k in w && id in w[k]
    ensures k in w' && id in w'[k]
  {
    var i :| 0 <= i < |w[k]| && w[k][i] == id;
    assert w'[k][i] == id;
  }

  /** The index over `cs` extends the index over all but its last clause,
      and watches the last clause on its first two literals. */
  lemma WatchIndexLast(cs: seq<seq<int>>)
    requires cs != [] && forall i :: 0 <= i < |cs| ==> |cs[i]| >= 2
    ensures var n := |cs| - 1; var w := WatchIndex(cs);
      WatchGrows(WatchIndex(cs[..n]), w) &&
      cs[n][0] in w && n in w[cs[n][0]] && cs[n][1] in w && n in w[cs[n][1]]
  {
    var n := |cs| - 1;
    var w0 := WatchIndex(cs[..n]);
    var w1 := AddWatch(w0, cs[n][0], n);
    var w2 := AddWatch(w1, cs[n][1], n);
    InGrown(w1, w2, cs[n][0], n);
    forall k | k in w0 ensures k in w2 && w0[k] <= w2[k] {
      assert w0[k] <= w1[k] <= w2[k];
    }
  }

  /** Every clause is watched on its first and on its second literal. */
  lemma {:induction false} WatchIndexComplete(cs: seq<seq<int>>)
    requires forall i :: 0 <= i < |cs| ==> |cs[i]| >= 2
    ensures forall id :: 0 <= id < |cs| ==>
      cs[id][0] in WatchIndex(cs) && id in WatchIndex(cs)[cs[id][0]] &&
      cs[id][1] in WatchIndex(cs) && id in WatchIndex(cs)[cs[id][1]]
  {
    if cs != [] {
      var n := |cs| - 1;
      var init := cs[..n];
      WatchIndexComplete(init);
      WatchIndexLast(cs);
      var w0, w := WatchIndex(init), WatchIndex(cs);
      forall id | 0 <= id < n
        ensures cs[id][0] in w && id in w[cs[id][0]] && cs[id][1] in w && id in w[cs[id][1]]
      {
        assert cs[id] == init[id];
        InGrown(w0, w, cs[id][0], id);
        InGrown(w0, w, cs[id][1], id);
      }
    }
  }

  // ---------------------------------------------------------------------
  // Choosing the next decision (sat.js:272-286)

  /** The clauses' literals in storage order. */
  function Flatten(cs: seq<seq<int>>): seq<int> {
    if cs == [] then [] else Flatten(cs[..|cs| - 1]) + cs[|cs| - 1]
  }

  lemma FlattenStep(cs: seq<seq<int>>, i: nat)
    requires i < |cs|
    ensures Flatten(cs[..i + 1]) == Flatten(cs[..i]) + cs[i]
  {
    assert cs[..i + 1][..i] == cs[..i];
  }

  lemma {:induction false} FlattenAppend(cs: seq<seq<int>>, ds: seq<seq<int>>)
    ensures Flatten(cs + ds) == Flatten(cs) + Flatten(ds)
    decreases |ds|
  {
    if ds == [] {
      assert cs + ds == cs;
    } else {
      var ds' := ds[..|ds| - 1];
      FlattenAppend(cs, ds');
      assert (cs + ds)[..|cs + ds| - 1] == cs + ds';
    }
  }

  lemma {:induction false} FlattenHas(cs: seq<seq<int>>, i: int, j: int)
    requires 0 <= i < |cs| && 0 <= j < |cs[i]|
    ensures cs[i][j] in Flatten(cs)
    decreases |cs|
  {
    var n := |cs| - 1;
    if i < n {
      FlattenHas(cs[..n], i, j);
    } else {
      assert Flatten(cs) == Flatten(cs[..n]) + cs[n];
    }
  }

  /** The literals `decisionVariableHeuristic` offers: at most four unassigned
      literals over pairwise distinct variables, in storage order, and none
      only when every literal is assigned one way or the other. */
  function Candidates(a: Assignment, ls: seq<int>): (r: seq<int>)
    ensures |r| <= 4
  {
    if ls == [] then []
    else
      assert ls == ls[..|ls| - 1] + [ls[|ls| - 1]];
      Offer(a, Candidates(a, ls[..|ls| - 1]), ls[|ls| - 1])
  }

  /** One literal seen by the heuristic: taken when fewer than four are
      taken, it is unassigned, and neither it nor its negation is taken. */
  function Offer(a: Assignment, r: seq<int>, l: int): seq<int> {
    if |r| < 4 && l !in a && -l !in a && l !in r && -l !in r then r + [l] else r
  }

  /** Every candidate is an unassigned literal of `ls`, and there is none
      only when every literal of `ls` is assigned one way or the other. */
  lemma {:induction false} CandidatesMeaning(a: Assignment, ls: seq<int>)
    ensures forall l :: l in Candidates(a, ls) ==> l in ls && l !in a && -l !in a
    ensures Candidates(a, ls) == [] <==> forall l :: l in ls ==> l in a || -l in a
  {
    if ls != [] {
      var ls' := ls[..|ls| - 1];
      CandidatesMeaning(a, ls');
      assert ls == ls' + [ls[|ls| - 1]];
    }
  }

  /** No two literals of `r` share a variable. */
  ghost predicate DistinctVariables(r: seq<int>) {
    forall i, j :: 0 <= i < j < |r| ==> r[i] != r[j] && r[i] != -r[j]
  }

  /** No two candidates share a variable. */
  lemma {:induction false} CandidatesDistinct(a: Assignment, ls: seq<int>)
    ensures DistinctVariables(Candidates(a, ls))
  {
    if ls != [] {
      var r := Candidates(a, ls[..|ls| - 1]);
      CandidatesDistinct(a, ls[..|ls| - 1]);
      var l := ls[|ls| - 1];
      var r' := Candidates(a, ls);
      if |r| < 4 && l !in a && -l !in a && l !in r && -l !in r {
        assert r' == r + [l];
        forall i, j | 0 <= i < j < |r'| ensures r'[i] != r'[j] && r'[i] != -r'[j] {
          assert r'[i] == r[i];
          if j == |r| {
            assert r[i] in r && r'[j] == l;
          } else {
            assert r'[j] == r[j];
          }
        }
      } else {
        assert r' == r;
      }
    }
  }

  lemma PrefixStep(s: seq<int>, c: seq<int>, i: nat)
    requires i < |c|
    ensures (s + c[..i]) + [c[i]] == s + c[..i + 1]
  {
    assert c[..i + 1] == c[..i] + [c[i]];
  }

  lemma CandidatesStep(a: Assignment, s: seq<int>, l: int)
    ensures Candidates(a, s + [l]) == Offer(a, Candidates(a, s), l)
  {
    var s' := s + [l];
    assert s' != [] && s'[..|s'| - 1] == s && s'[|s'| - 1] == l;
  }

  /** The inner loop of `decisionVariableHeuristic`: scan one clause,
      stopping at the literal that makes four candidates. */
  method ScanClause(a: Assignment, ghost pre: seq<int>, clause: seq<int>, res0: seq<int>)
    returns (res: seq<int>, stop: bool, ghost at: nat)
    requires res0 == Candidates(a, pre) && |res0| < 4
    ensures !stop ==> res == Candidates(a, pre + clause) && |res| < 4
    ensures stop ==> at < |clause| && res == Candidates(a, pre + clause[..at + 1]) && |res| == 4
  {
    res := res0;
    var li := 0;
    ghost var scanned := pre;
    while li < |clause| && |res| < 4
      invariant 0 <= li <= |clause|
      invariant scanned == pre + clause[..li]
      invariant res == Candidates(a, scanned)
      invariant |res| == 4 ==> li > 0
    {
      var lit := clause[li];
      CandidatesStep(a, scanned, lit);
      res := Offer(a, res, lit);
      PrefixStep(pre, clause, li);
      scanned := scanned + [lit];
      li := li + 1;
    }
    stop, at := |res| == 4, if li > 0 then li - 1 else 0;
    if !stop {
      assert clause[..li] == clause;
    }
  }

  /** Four literals found in clause `ci` at position `li`: the heuristic over
      all of `cs` is what was found so far. */
  lemma CandidatesStop(a: Assignment, cs: seq<seq<int>>, ci: nat, li: nat)
    requires ci < |cs| && li < |cs[ci]|
    requires |Candidates(a, Flatten(cs[..ci]) + cs[ci][..li + 1])| == 4
    ensures Candidates(a, Flatten(cs)) == Candidates(a, Flatten(cs[..ci]) + cs[ci][..li + 1])
  {
    var c := cs[ci];
    FlattenAppend(cs[..ci + 1], cs[ci + 1..]);
    assert cs[..ci + 1] + cs[ci + 1..] == cs;
    FlattenStep(cs, ci);
    assert c[..li + 1] + c[li + 1..] == c;
    var s := Flatten(cs[..ci]) + c[..li + 1];
    var t := c[li + 1..] + Flatten(cs[ci + 1..]);
    assert Flatten(cs) == s + t;
    CandidatesFull(a, s, t);
  }

  /** Once four literals are found, later literals change nothing. */
  lemma {:induction false} CandidatesFull(a: Assignment, s: seq<int>, t: seq<int>)
    requires |Candidates(a, s)| == 4
    ensures Candidates(a, s + t) == Candidates(a, s)
    decreases |t|
  {
    if t == [] {
      assert s + t == s;
    } else {
      var t' := t[..|t| - 1];
      CandidatesFull(a, s, t');
      assert (s + t)[..|s + t| - 1] == s + t';
    }
  }

  // ---------------------------------------------------------------------
  // Learning (sat.js:224-247)

  /** `s` with every occurrence of `x` deleted. */
  function Without(s: seq<int>, x: int): (r: seq<int>)
    ensures forall y :: y in r <==> y in s && y != x
    ensures NoDup(s) ==> NoDup(r)
  {
    if s == [] then []
    else
      assert s == s[..|s| - 1] + [s[|s| - 1]];
      var r := Without(s[..|s| - 1], x);
      NoDupSnoc(s[..|s| - 1], s[|s| - 1]);
      NoDupSnoc(r, s[|s| - 1]);
      if s[|s| - 1] == x then r else r + [s[|s| - 1]]
  }

  /** The clause learned from a conflict on `x`: the literals of both
      clauses, without repetitions, in insertion order, minus `x` and `-x`. */
  function Resolvent(earlier: seq<int>, later: seq<int>, x: int): (r: seq<int>)
    ensures NoDup(r)
    ensures forall y :: y in r <==> (y in earlier || y in later) && y != x && y != -x
  {
    Without(Without(Dedup(earlier + later), x), -x)
  }

  /** The loop of `analyzeConflict` that builds the learned clause: the
      literals of `earlier`, then those of `later` not already present,
      then `x` and `-x` removed. */
  method Resolve(earlier: seq<int>, later: seq<int>, x: int) returns (res: seq<int>)
    ensures res == Resolvent(earlier, later, x)
  {
    res := Dedup(earlier);
    assert earlier + later[..0] == earlier;
    for i := 0 to |later|
      invariant res == Dedup(earlier + later[..i])
    {
      DedupStep(earlier, later, i);
      if later[i] !in res {
        res := res + [later[i]];
      }
    }
    assert later[..|later|] == later;
    res := Without(Without(res, x), -x);
  }

  /** Adding one more literal of `later` to the set being built. */
  lemma DedupStep(earlier: seq<int>, later: seq<int>, i: nat)
    requires i < |later|
    ensures var r := Dedup(earlier + later[..i]);
      Dedup(earlier + later[..i + 1]) == if later[i] in r then r else r + [later[i]]
  {
    var s := earlier + later[..i];
    var t := earlier + later[..i + 1];
    assert t == s + [later[i]];
    assert t[..|t| - 1] == s;
  }

  // ---------------------------------------------------------------------
  // Simplification (sat.js:62-92)

  /** The clauses of two literals or more, in order. */
  /** The clauses `simplify` does not silently drop: all but the empty
      ones, in order. */
  function NonEmpty(cs: seq<seq<int>>): (r: seq<seq<int>>)
    ensures forall c :: c in r <==> c in cs && c != []
  {
    if cs == [] then []
    else
      assert cs == cs[..|cs| - 1] + [cs[|cs| - 1]];
      NonEmpty(cs[..|cs| - 1]) + (if cs[|cs| - 1] != [] then [cs[|cs| - 1]] else [])
  }

  function LongClauses(cs: seq<seq<int>>): (r: seq<seq<int>>)
    ensures forall i :: 0 <= i < |r| ==> |r[i]| >= 2 && r[i] in cs
    ensures forall i :: 0 <= i < |cs| && |cs[i]| >= 2 ==> cs[i] in r
  {
    if cs == [] then []
    else
      assert cs == cs[..|cs| - 1] + [cs[|cs| - 1]];
      LongClauses(cs[..|cs| - 1]) + (if |cs[|cs| - 1]| >= 2 then [cs[|cs| - 1]] else [])
  }

  /** The literals of the unit clauses, in order. */
  function Units(cs: seq<seq<int>>): (r: seq<int>)
    ensures forall i :: 0 <= i < |r| ==> [r[i]] in cs
    ensures forall i :: 0 <= i < |cs| && |cs[i]| == 1 ==> cs[i][0] in r
  {
    if cs == [] then []
    else
      assert cs == cs[..|cs| - 1] + [cs[|cs| - 1]];
      var c := cs[|cs| - 1];
      assert |c| == 1 ==> c == [c[0]];
      Units(cs[..|cs| - 1]) + (if |c| == 1 then [c[0]] else [])
  }

  /** The deduplicated units of clauses over `U` are in `U`, and when they
      hold no complementary pair, none is the negation of another. */
  lemma UnitsOver(cs: seq<seq<int>>, U: set<int>, units: seq<int>)
    requires ClausesOver(cs, U) && 0 !in U && InitialUnits(Units(cs)) == Some(units)
    ensures NoDup(units) && forall l :: l in units ==> l in U && -l in U
    ensures forall l, m :: l in units && m in units ==> l != -m
  {
    var u := Units(cs);
    InitialUnitsMeaning(u);
    forall l | l in units ensures l in U && -l in U {
      var i :| 0 <= i < |u| && u[i] == l;
      assert [u[i]] in cs && l in [u[i]];
    }
    forall l, m | l in units && m in units ensures l != -m {
      if l == -m {
        PairWitness(u, l);
      }
    }
  }

  // ---------------------------------------------------------------------
  // Propagation (sat.js:155-221)

  /** A literal `l` with reason `r` is forced under `a`: `r` is a stored
      clause that contains `l` but not `-l`, and whose every other literal
      is false. */
  ghost predicate ForcedBy(cs: seq<seq<int>>, a: Assignment, l: int, r: Reason) {
    r.ByClause? && r.clause in cs && l in r.clause && -l !in r.clause
    && forall m :: m in r.clause ==> m == l || -m in a
  }

  ghost function QueuedLits(queue: seq<(int, Reason)>): set<int> {
    set i | 0 <= i < |queue| :: queue[i].0
  }

  /** The literals a pass starts from: those of the assignment and those
      to propagate. */
  ghost function Start(a0: Assignment, lits0: seq<int>): set<int> {
    a0.Keys + set l | l in lits0
  }

  /** The state of one propagation pass started from `a0` with the literals
      `lits0`: `seen` (the JavaScript `seenLits`) holds every literal queued
      so far, `a` the ones already taken off the queue.  Nothing queued
      clashes with `a0` or with anything else queued, and every model that
      makes the starting literals true makes every queued literal true. */
  ghost predicate PassInvariant(cs: seq<seq<int>>, U: set<int>, a0: Assignment, lits0: seq<int>, reason0: Reason,
                                queue: seq<(int, Reason)>, seen: Assignment, a: Assignment)
  {
    TakenOk(U, a0, seen, a) && QueueOk(queue, seen, a)
    && SeenOk(U, a0, lits0, reason0, seen) && ForcedOk(cs, a, lits0, seen)
    && Implied(cs, U, Start(a0, lits0), seen.Keys)
  }

  /** `a` extends `a0` consistently within `U`, and each literal it adds was
      seen with the same reason. */
  ghost predicate TakenOk(U: set<int>, a0: Assignment, seen: Assignment, a: Assignment) {
    Extends(a, a0) && Consistent(a) && a.Keys <= U
    && (forall l :: l in a && l !in a0 ==> l in seen && a[l] == seen[l])
  }

  /** The queue holds distinct seen literals with their reasons, none of them
      in `a` yet, and every seen literal is in `a` or queued. */
  ghost predicate QueueOk(queue: seq<(int, Reason)>, seen: Assignment, a: Assignment) {
    (forall i :: 0 <= i < |queue| ==> queue[i].0 in seen && seen[queue[i].0] == queue[i].1 && queue[i].0 !in a)
    && (forall i, j :: 0 <= i < j < |queue| ==> queue[i].0 != queue[j].0)
    && (forall l :: l in seen ==> l in a || l in QueuedLits(queue))
  }

  /** The seen literals lie in `U`, clash neither with `a0` nor with each
      other, and include the starting literals with the starting reason. */
  ghost predicate SeenOk(U: set<int>, a0: Assignment, lits0: seq<int>, reason0: Reason, seen: Assignment) {
    (forall l :: l in seen ==> l in U && l !in a0 && -l !in a0)
    && (forall l, m :: l in seen && m in seen ==> l != -m)
    && (forall l :: l in lits0 ==> l in seen && seen[l] == reason0)
  }

  /** Every seen literal but the starting ones is forced under `a`. */
  ghost predicate ForcedOk(cs: seq<seq<int>>, a: Assignment, lits0: seq<int>, seen: Assignment) {
    forall l :: l in seen && l !in lits0 ==> ForcedBy(cs, a, l, seen[l])
  }

  /** What a successful pass promises: `b` extends `a0`, is consistent, holds
      every starting literal with the starting reason, and every other new
      literal is forced by a clause of `cs`. */
  ghost predicate Propagated(cs: seq<seq<int>>, U: set<int>, a0: Assignment, lits0: seq<int>, reason0: Reason, b: Assignment) {
    Extends(b, a0) && Consistent(b) && b.Keys <= U
    && (forall l :: l in lits0 ==> l in b && b[l] == reason0)
    && (forall l :: l in b && l !in a0 && l !in lits0 ==> ForcedBy(cs, b, l, b[l]))
  }

  lemma PassStart(cs: seq<seq<int>>, U: set<int>, a0: Assignment, lits0: seq<int>, reason0: Reason,
                  queue: seq<(int, Reason)>, seen: Assignment)
    requires Consistent(a0) && a0.Keys <= U && NoDup(lits0)
    requires forall l :: l in lits0 ==> l in U && l !in a0 && -l !in a0
    requires forall l, m :: l in lits0 && m in lits0 ==> l != -m
    requires |queue| == |lits0| && forall i :: 0 <= i < |queue| ==> queue[i] == (lits0[i], reason0)
    requires forall l :: l in seen <==> l in lits0
    requires forall l :: l in seen ==> seen[l] == reason0
    ensures PassInvariant(cs, U, a0, lits0, reason0, queue, seen, a0)
  {
    forall i | 0 <= i < |queue| ensures queue[i].0 in seen {
      assert queue[i].0 == lits0[i] && lits0[i] in lits0;
    }
    forall i, j | 0 <= i < j < |queue| ensures queue[i].0 != queue[j].0 {
      NoDupDistinct(lits0, i, j);
    }
    forall l | l in seen ensures l in a0 || l in QueuedLits(queue) {
      var i :| 0 <= i < |lits0| && lits0[i] == l;
      assert queue[i].0 == l;
    }
    assert seen.Keys <= Start(a0, lits0);
  }

  /** Taking the head off the queue: it is neither true nor false yet (the
      two assertions of the JavaScript code), and the invariant holds for
      the assignment that adds it. */
  lemma PopStep(cs: seq<seq<int>>, U: set<int>, a0: Assignment, lits0: seq<int>, reason0: Reason,
                queue: seq<(int, Reason)>, seen: Assignment, a: Assignment)
    requires PassInvariant(cs, U, a0, lits0, reason0, queue, seen, a) && queue != []
    ensures queue[0].0 !in a && -queue[0].0 !in a
    ensures PassInvariant(cs, U, a0, lits0, reason0, queue[1..], seen, a[queue[0].0 := queue[0].1])
  {
    PopTaken(U, a0, lits0, reason0, queue, seen, a);
    PopQueue(queue, seen, a);
    ForcedMono(cs, a, a[queue[0].0 := queue[0].1], lits0, seen);
  }

  lemma PopTaken(U: set<int>, a0: Assignment, lits0: seq<int>, reason0: Reason,
                 queue: seq<(int, Reason)>, seen: Assignment, a: Assignment)
    requires TakenOk(U, a0, seen, a) && QueueOk(queue, seen, a) && SeenOk(U, a0, lits0, reason0, seen)
    requires queue != []
    ensures queue[0].0 !in a && -queue[0].0 !in a
    ensures TakenOk(U, a0, seen, a[queue[0].0 := queue[0].1])
  {
    var lit := queue[0].0;
    assert lit in seen;
  }

  lemma PopQueue(queue: seq<(int, Reason)>, seen: Assignment, a: Assignment)
    requires QueueOk(queue, seen, a) && queue != []
    ensures QueueOk(queue[1..], seen, a[queue[0].0 := queue[0].1])
  {
    var a' := a[queue[0].0 := queue[0].1];
    forall i | 0 <= i < |queue[1..]| ensures queue[1..][i].0 !in a' {
      assert queue[1..][i] == queue[i + 1];
    }
    forall l | l in seen ensures l in a' || l in QueuedLits(queue[1..]) {
      if l !in a' {
        var i :| 0 <= i < |queue| && queue[i].0 == l;
        assert queue[1..][i - 1].0 == l;
      }
    }
  }

  /** Forcing survives extending the assignment. */
  lemma ForcedMono(cs: seq<seq<int>>, a: Assignment, b: Assignment, lits0: seq<int>, seen: Assignment)
    requires ForcedOk(cs, a, lits0, seen) && Extends(b, a)
    ensures ForcedOk(cs, b, lits0, seen)
  {
    forall l | l in seen && l !in lits0 ensures ForcedBy(cs, b, l, seen[l]) {
      assert ForcedBy(cs, a, l, seen[l]);
    }
  }

  /** Queueing a literal forced by `clause`. */
  lemma PushStep(cs: seq<seq<int>>, U: set<int>, a0: Assignment, lits0: seq<int>, reason0: Reason,
                 queue: seq<(int, Reason)>, seen: Assignment, a: Assignment, plit: int, clause: seq<int>)
    requires PassInvariant(cs, U, a0, lits0, reason0, queue, seen, a)
    requires plit != 0 && plit in U && plit !in a && -plit !in a && plit !in seen && -plit !in seen
    requires clause in cs && plit in clause && forall m :: m in clause ==> m == plit || -m in a
    ensures PassInvariant(cs, U, a0, lits0, reason0, queue + [(plit, ByClause(clause))], seen[plit := ByClause(clause)], a)
  {
    var r := ByClause(clause);
    PushTaken(U, a0, seen, a, plit, r);
    PushQueue(queue, seen, a, plit, r);
    PushSeen(U, a0, lits0, reason0, seen, plit, r);
    PushForced(cs, a, lits0, seen, plit, clause);
    TakenWithin(U, a0, seen, a, lits0);
    ForcedImplied(cs, U, Start(a0, lits0), seen.Keys, a, clause, plit);
    assert seen[plit := r].Keys == seen.Keys + {plit};
  }

  lemma PushTaken(U: set<int>, a0: Assignment, seen: Assignment, a: Assignment, plit: int, r: Reason)
    requires TakenOk(U, a0, seen, a) && plit !in a
    ensures TakenOk(U, a0, seen[plit := r], a)
  {
    forall l | l in a && l !in a0 ensures l in seen[plit := r] && a[l] == seen[plit := r][l] {
      assert l in seen && l != plit;
    }
  }

  lemma PushQueue(queue: seq<(int, Reason)>, seen: Assignment, a: Assignment, plit: int, r: Reason)
    requires QueueOk(queue, seen, a) && plit !in seen && plit !in a
    ensures QueueOk(queue + [(plit, r)], seen[plit := r], a)
  {
    var q := queue + [(plit, r)];
    var seen' := seen[plit := r];
    forall i | 0 <= i < |q| ensures q[i].0 in seen' && seen'[q[i].0] == q[i].1 && q[i].0 !in a {
      if i < |queue| {
        assert q[i] == queue[i] && queue[i].0 in seen;
      }
    }
    forall i, j | 0 <= i < j < |q| ensures q[i].0 != q[j].0 {
      if j < |queue| {
        assert q[i] == queue[i] && q[j] == queue[j];
      } else {
        assert q[i] == queue[i] && queue[i].0 in seen;
      }
    }
    forall l | l in seen' ensures l in a || l in QueuedLits(q) {
      if l == plit {
        assert q[|queue|].0 == plit;
      } else if l !in a {
        var i :| 0 <= i < |queue| && queue[i].0 == l;
        assert q[i].0 == l;
      }
    }
  }

  lemma PushSeen(U: set<int>, a0: Assignment, lits0: seq<int>, reason0: Reason, seen: Assignment, plit: int, r: Reason)
    requires SeenOk(U, a0, lits0, reason0, seen)
    requires plit != 0 && plit in U && plit !in a0 && -plit !in a0 && plit !in seen && -plit !in seen
    ensures SeenOk(U, a0, lits0, reason0, seen[plit := r])
  {
    var seen' := seen[plit := r];
    forall l | l in seen' ensures l in U && l !in a0 && -l !in a0 {
      if l != plit {
        assert l in seen;
      }
    }
    forall l, m | l in seen' && m in seen' ensures l != -m {
      if l != plit && m != plit {
        assert l in seen && m in seen;
      }
    }
    forall l | l in lits0 ensures l in seen' && seen'[l] == reason0 {
      assert l in seen && l != plit;
    }
  }

  lemma PushForced(cs: seq<seq<int>>, a: Assignment, lits0: seq<int>, seen: Assignment, plit: int, clause: seq<int>)
    requires ForcedOk(cs, a, lits0, seen) && plit !in seen && plit != 0 && plit !in a
    requires clause in cs && plit in clause && forall m :: m in clause ==> m == plit || -m in a
    ensures ForcedOk(cs, a, lits0, seen[plit := ByClause(clause)])
  {
    assert -plit !in clause;
    var seen' := seen[plit := ByClause(clause)];
    forall l | l in seen' && l !in lits0 ensures ForcedBy(cs, a, l, seen'[l]) {
      if l != plit {
        assert l in seen;
      }
    }
  }

  /** The reason recorded for a seen literal is a starting reason, which is
      not a clause, or a stored clause that forces it. */
  lemma SeenReason(cs: seq<seq<int>>, U: set<int>, a0: Assignment, lits0: seq<int>, reason0: Reason,
                   queue: seq<(int, Reason)>, seen: Assignment, a: Assignment, l: int)
    requires PassInvariant(cs, U, a0, lits0, reason0, queue, seen, a) && !reason0.ByClause? && l in seen
    ensures seen[l].ByClause? ==> ForcedBy(cs, a, l, seen[l])
  {
    if l !in lits0 {
      assert ForcedBy(cs, a, l, seen[l]);
    }
  }

  /** An empty queue: the pass is complete, and every literal it assigned
      holds in every model that makes the starting literals true. */
  lemma PassEnd(cs: seq<seq<int>>, U: set<int>, a0: Assignment, lits0: seq<int>, reason0: Reason,
                seen: Assignment, a: Assignment)
    requires PassInvariant(cs, U, a0, lits0, reason0, [], seen, a)
    ensures Propagated(cs, U, a0, lits0, reason0, a)
    ensures Implied(cs, U, Start(a0, lits0), a.Keys)
    ensures seen.Keys <= a.Keys
  {
    TakenWithin(U, a0, seen, a, lits0);
    forall l | l in seen ensures l in a {
      assert l in a || l in QueuedLits([]);
    }
  }

  /** A visited clause with no literal left that is not false: no model
      makes the starting literals of the pass true. */
  lemma EmptyScanRefutes(cs: seq<seq<int>>, U: set<int>, a0: Assignment, lits0: seq<int>, reason0: Reason,
                         queue: seq<(int, Reason)>, seen: Assignment, a: Assignment, clause: seq<int>)
    requires PassInvariant(cs, U, a0, lits0, reason0, queue, seen, a) && clause in cs
    requires UpToTwo(a, clause).Open? && |UpToTwo(a, clause).lits| == 0
    ensures Refuted(cs, U, Start(a0, lits0))
  {
    TakenWithin(U, a0, seen, a, lits0);
    FalsifiedRefutes(cs, U, Start(a0, lits0), seen.Keys, a, clause);
  }

  /** A visited clause unit on `plit` while `-plit` was seen in the same
      pass: no model makes the starting literals true, and when a clause
      forced `-plit` the two clauses clash on it, so their resolvent may be
      learned. */
  lemma SeenClash(cs: seq<seq<int>>, U: set<int>, a0: Assignment, lits0: seq<int>, reason0: Reason,
                  queue: seq<(int, Reason)>, seen: Assignment, a: Assignment, clause: seq<int>, plit: int,
                  earlier: Reason)
    requires PassInvariant(cs, U, a0, lits0, reason0, queue, seen, a) && !reason0.ByClause?
    requires ClausesOver(cs, U) && 0 !in U && clause in cs
    requires UpToTwo(a, clause).Open? && |UpToTwo(a, clause).lits| == 1 && plit == UpToTwo(a, clause).lits[0]
    requires -plit in seen && earlier == seen[-plit]
    ensures Refuted(cs, U, Start(a0, lits0))
    ensures forall l :: l in clause ==> l in U && -l in U
    ensures earlier.ByClause? ==> Clashing(cs, earlier.clause, clause, -plit)
    ensures earlier.ByClause? ==> forall l :: l in earlier.clause ==> l in U && -l in U
  {
    UnitScan(a, clause);
    SeenReason(cs, U, a0, lits0, reason0, queue, seen, a, -plit);
    ClauseWithin(cs, U, clause);
    TakenWithin(U, a0, seen, a, lits0);
    ClashRefutes(cs, U, Start(a0, lits0), seen.Keys, a, clause, plit);
    if earlier.ByClause? {
      ClauseWithin(cs, U, earlier.clause);
      assert -plit !in clause;
    }
  }

  /** A visited clause unit on `plit`, which was not seen yet: queueing it
      with the clause as its reason keeps the pass state, and the clause
      then holds a queued literal. */
  lemma UnitPush(cs: seq<seq<int>>, U: set<int>, a0: Assignment, lits0: seq<int>, reason0: Reason,
                 queue: seq<(int, Reason)>, seen: Assignment, a: Assignment, clause: seq<int>, plit: int)
    requires PassInvariant(cs, U, a0, lits0, reason0, queue, seen, a)
    requires ClausesOver(cs, U) && 0 !in U && clause in cs
    requires UpToTwo(a, clause).Open? && |UpToTwo(a, clause).lits| == 1 && plit == UpToTwo(a, clause).lits[0]
    requires plit !in seen && -plit !in seen
    ensures var (queue', seen') := (queue + [(plit, ByClause(clause))], seen[plit := ByClause(clause)]);
      PassInvariant(cs, U, a0, lits0, reason0, queue', seen', a)
      && QueueStep(U, queue, seen, queue', seen') && Holds(seen'.Keys, clause)
  {
    UnitScan(a, clause);
    ClauseWithin(cs, U, clause);
    PushStep(cs, U, a0, lits0, reason0, queue, seen, a, plit, clause);
    var queue' := queue + [(plit, ByClause(clause))];
    assert queue'[..|queue|] == queue;
    HoldsIn(seen[plit := ByClause(clause)].Keys, clause, plit);
  }

  /** Every literal taken off the queue was seen or was in the assignment
      the pass started from. */
  lemma TakenWithin(U: set<int>, a0: Assignment, seen: Assignment, a: Assignment, lits0: seq<int>)
    requires TakenOk(U, a0, seen, a)
    ensures a.Keys <= Start(a0, lits0) + seen.Keys
  {
    forall l | l in a ensures l in Start(a0, lits0) + seen.Keys {
      if l !in a0 {
        assert l in seen;
      }
    }
  }

  /** The two ways visiting a watched clause ends a pass: no literal of the
      clause is left that is not false, or the one literal left is the
      negation of a literal already queued in this pass. */
  predicate UnitConflict(scan: Scan, seen: Assignment) {
    scan.Open? &&
    (|scan.lits| == 0 || (|scan.lits| == 1 && scan.lits[0] !in seen && -scan.lits[0] in seen))
  }

  /** What visiting one clause does to the queue: nothing, or one literal
      of `U` not seen before is queued and seen with its reason. */
  ghost predicate QueueStep(U: set<int>, queue: seq<(int, Reason)>, seen: Assignment,
                            queue': seq<(int, Reason)>, seen': Assignment)
  {
    (queue' == queue && seen' == seen)
    || (|queue'| == |queue| + 1 && queue'[..|queue|] == queue
        && queue'[|queue|].0 in U && queue'[|queue|].0 !in seen
        && seen' == seen[queue'[|queue|].0 := queue'[|queue|].1])
  }

  /** A queue step spends at most what it leaves to see: twice the unseen
      literals of `U` plus the queue length never grows. */
  lemma QueueStepMeasure(U: set<int>, queue: seq<(int, Reason)>, seen: Assignment,
                         queue': seq<(int, Reason)>, seen': Assignment)
    requires QueueStep(U, queue, seen, queue', seen')
    ensures 2 * |U - seen'.Keys| + |queue'| <= 2 * |U - seen.Keys| + |queue|
  {
    if !(queue' == queue && seen' == seen) {
      OneLess(U, seen, queue'[|queue|].0, queue'[|queue|].1);
    }
  }

  /** Seeing one more literal of `U` shrinks what is left to see. */
  lemma OneLess(U: set<int>, seen: Assignment, p: int, r: Reason)
    requires p in U && p !in seen
    ensures |U - seen[p := r].Keys| == |U - seen.Keys| - 1
  {
    assert U - seen.Keys == (U - seen[p := r].Keys) + {p};
  }

  /** The index after `mapOfSetsAdd` still points from each key to clauses
      that contain it. */
  ghost predicate WatchesOk(w: Watches, cs: seq<seq<int>>) {
    forall k :: k in w ==> forall id: nat :: id in w[k] ==> id < |cs| && k in cs[id]
  }

  lemma AddWatchOk(w: Watches, cs: seq<seq<int>>, k: int, id: nat)
    requires WatchesOk(w, cs) && id < |cs| && k in cs[id]
    ensures WatchesOk(AddWatch(w, k, id), cs)
  {
    var r := AddWatch(w, k, id);
    forall k' | k' in r ensures forall x: nat :: x in r[k'] ==> x < |cs| && k' in cs[x] {
      forall x: nat | x in r[k'] ensures x < |cs| && k' in cs[x] {
        if !(k' == k && x == id) {
          assert k' in w && x in w[k'];
        }
      }
    }
  }

  /** Appending a long clause over `U` keeps the stored clauses long and
      over `U`. */
  lemma ClausesSnoc(cs: seq<seq<int>>, U: set<int>, c: seq<int>)
    requires ClausesOver(cs, U) && forall i :: 0 <= i < |cs| ==> |cs[i]| >= 2
    requires |c| >= 2 && forall l :: l in c ==> l in U && -l in U
    ensures ClausesOver(cs + [c], U) && forall i :: 0 <= i < |cs + [c]| ==> |(cs + [c])[i]| >= 2
  {
    forall d, l | d in cs + [c] && l in d ensures l in U && -l in U {
      if d != c {
        assert d in cs;
      }
    }
  }

  lemma WatchesOkGrow(w: Watches, cs: seq<seq<int>>, ds: seq<seq<int>>)
    requires WatchesOk(w, cs) && cs <= ds
    ensures WatchesOk(w, ds)
  {
    forall k | k in w ensures forall id: nat :: id in w[k] ==> id < |ds| && k in ds[id] {
      forall id: nat | id in w[k] ensures id < |ds| && k in ds[id] {
        assert ds[id] == cs[id];
      }
    }
  }

  lemma WatchIndexOk(cs: seq<seq<int>>)
    requires forall i :: 0 <= i < |cs| ==> |cs[i]| >= 2
    ensures WatchesOk(WatchIndex(cs), cs)
  {
    WatchIndexSound(cs);
    var w := WatchIndex(cs);
    forall k | k in w ensures forall id: nat :: id in w[k] ==> id < |cs| && k in cs[id] {
      forall id: nat | id in w[k] ensures id < |cs| && k in cs[id] {
        assert cs[id][0] == k || cs[id][1] == k;
      }
    }
  }

  /** Every literal of every clause of `cs` is true or false under `a`. */
  ghost predicate AllAssigned(a: Assignment, cs: seq<seq<int>>) {
    forall i, j :: 0 <= i < |cs| && 0 <= j < |cs[i]| ==> cs[i][j] in a || -cs[i][j] in a
  }

  /** `after` keeps the solutions of `before`, and every solution added
      since extends `a`, is consistent, assigns every literal of `cs` and
      satisfies every clause of `base`. */
  ghost predicate Recorded(before: seq<Assignment>, after: seq<Assignment>, a: Assignment, cs: seq<seq<int>>,
                           base: seq<seq<int>>) {
    before <= after
    && forall i :: |before| <= i < |after| ==>
      Extends(after[i], a) && Consistent(after[i]) && AllAssigned(after[i], cs)
      && forall c :: c in base ==> Holds(after[i].Keys, c)
  }

  /** What holds of solutions found below a decision holds, more weakly, of
      the assignment it extends and of fewer clauses. */
  lemma RecordedWeaken(before: seq<Assignment>, after: seq<Assignment>, b: Assignment, ds: seq<seq<int>>,
                       a: Assignment, cs: seq<seq<int>>, base: seq<seq<int>>)
    requires Recorded(before, after, b, ds, base) && Extends(b, a) && cs <= ds
    ensures Recorded(before, after, a, cs, base)
  {
    forall i | |before| <= i < |after| ensures Extends(after[i], a) && AllAssigned(after[i], cs) {
      forall k, j | 0 <= k < |cs| && 0 <= j < |cs[k]| ensures cs[k][j] in after[i] || -cs[k][j] in after[i] {
        assert cs[k] == ds[k];
      }
    }
  }

  lemma RecordedJoin(s0: seq<Assignment>, s1: seq<Assignment>, s2: seq<Assignment>, a: Assignment, cs: seq<seq<int>>,
                     base: seq<seq<int>>)
    requires Recorded(s0, s1, a, cs, base) && Recorded(s1, s2, a, cs, base)
    ensures Recorded(s0, s2, a, cs, base)
  {
    forall i | |s0| <= i < |s1| ensures s2[i] == s1[i] {
    }
  }

  /** Assigning a new literal of `U` leaves fewer literals of `U` to assign. */
  lemma Shrinks(U: set<int>, a: Assignment, b: Assignment, l: int)
    requires Extends(b, a) && b.Keys <= U && l in b && l !in a
    ensures |U - b.Keys| < |U - a.Keys|
  {
    var X, Y := U - a.Keys, U - b.Keys;
    forall x | x in Y ensures x in X {
      assert x !in b;
    }
    var Z := Y + {l};
    assert l !in Y;
    assert |Z| == |Y| + 1;
    assert l in X;
    assert Z <= X;
    SubsetCard(Z, X);
  }

  lemma SubsetCard(A: set<int>, B: set<int>)
    requires A <= B
    ensures |A| <= |B|
  {
    assert B == A + (B - A);
  }

  /** No candidate left: every literal of the stored clauses, and so of any
      earlier prefix of them, is assigned. */
  lemma NoCandidates(a: Assignment, cs: seq<seq<int>>, ds: seq<seq<int>>)
    requires cs <= ds && Candidates(a, Flatten(ds)) == []
    ensures AllAssigned(a, cs)
  {
    CandidatesMeaning(a, Flatten(ds));
    forall i, j | 0 <= i < |cs| && 0 <= j < |cs[i]| ensures cs[i][j] in a || -cs[i][j] in a {
      assert cs[i] == ds[i];
      FlattenHas(ds, i, j);
    }
  }

  // ---------------------------------------------------------------------
  // Models: what propagation and learning preserve (sat.js:155-269)

  /** Some literal of `c` is in `M`. */
  predicate Holds(M: set<int>, c: seq<int>) {
    exists i :: 0 <= i < |c| && c[i] in M
  }

  lemma HoldsIn(M: set<int>, c: seq<int>, l: int)
    requires l in c && l in M
    ensures Holds(M, c)
  {
    var i :| 0 <= i < |c| && c[i] == l;
  }

  /** `M`, a set of true literals, is a model of `cs` over `U`: it holds no
      literal together with its negation, decides every literal of `U`, and
      makes every clause of `cs` hold. */
  ghost predicate IsModel(M: set<int>, cs: seq<seq<int>>, U: set<int>) {
    (forall l :: l in M ==> -l !in M)
    && (forall l :: l in U ==> l in M || -l in M)
    && (forall c :: c in cs ==> Holds(M, c))
  }

  /** Every model of `cs` that makes `S` true makes `B` true. */
  ghost predicate Implied(cs: seq<seq<int>>, U: set<int>, S: set<int>, B: set<int>) {
    forall M :: IsModel(M, cs, U) && S <= M ==> B <= M
  }

  /** No model of `cs` makes `S` true. */
  ghost predicate Refuted(cs: seq<seq<int>>, U: set<int>, S: set<int>) {
    forall M :: IsModel(M, cs, U) ==> !(S <= M)
  }

  /** Every model of `cs` that makes `S` true makes some solution recorded
      from index `from` on true: enumeration missed none of them. */
  ghost predicate Covered(sols: seq<Assignment>, from: nat, cs: seq<seq<int>>, U: set<int>, S: set<int>) {
    forall M :: IsModel(M, cs, U) && S <= M ==> exists i :: from <= i < |sols| && sols[i].Keys <= M
  }

  /** Every model of `cs` is a model of `ds`. */
  ghost predicate ModelsKept(cs: seq<seq<int>>, ds: seq<seq<int>>, U: set<int>) {
    forall M :: IsModel(M, cs, U) ==> IsModel(M, ds, U)
  }

  /** `c` holds in every model of `cs`. */
  ghost predicate Entailed(cs: seq<seq<int>>, U: set<int>, c: seq<int>) {
    forall M :: IsModel(M, cs, U) ==> Holds(M, c)
  }

  /** Storing a clause that every model already satisfies loses no model. */
  lemma EntailedKept(cs: seq<seq<int>>, U: set<int>, c: seq<int>)
    requires Entailed(cs, U, c)
    ensures ModelsKept(cs, cs + [c], U)
  {
    forall M | IsModel(M, cs, U) ensures IsModel(M, cs + [c], U) {
      forall d | d in cs + [c] ensures Holds(M, d) {
        if d !in cs {
          assert d == c;
        }
      }
    }
  }

  /** `e` forced `x` and `l` forced `-x`: each contains its own literal and
      not the other one. */
  ghost predicate Clashing(cs: seq<seq<int>>, e: seq<int>, l: seq<int>, x: int) {
    e in cs && l in cs && x in e && -x !in e && -x in l && x !in l
  }

  /** The learned clause of `analyzeConflict` is a resolvent: it holds in
      every model of the two clauses it is built from. */
  lemma ResolventEntailed(cs: seq<seq<int>>, U: set<int>, e: seq<int>, l: seq<int>, x: int)
    requires Clashing(cs, e, l, x)
    ensures Entailed(cs, U, Resolvent(e, l, x))
  {
    var r := Resolvent(e, l, x);
    forall M | IsModel(M, cs, U) ensures Holds(M, r) {
      assert Holds(M, e) && Holds(M, l);
      if x in M {
        var i :| 0 <= i < |l| && l[i] in M;
        assert l[i] in l;
        HoldsIn(M, r, l[i]);
      } else {
        var i :| 0 <= i < |e| && e[i] in M;
        assert e[i] in e;
        HoldsIn(M, r, e[i]);
      }
    }
  }

  /** A clause whose every literal but `p` is false under `a` makes `p` true
      in every model of the clauses that makes `a` true. */
  lemma ClauseForces(M: set<int>, cs: seq<seq<int>>, U: set<int>, a: Assignment, clause: seq<int>, p: int)
    requires IsModel(M, cs, U) && a.Keys <= M && clause in cs && p in clause
    requires forall m :: m in clause ==> m == p || -m in a
    ensures p in M
  {
    assert Holds(M, clause);
    var i :| 0 <= i < |clause| && clause[i] in M;
    var m := clause[i];
    assert m in clause;
    assert -m in a ==> -m in M;
  }

  /** Queueing a forced literal keeps the queued literals implied. */
  lemma ForcedImplied(cs: seq<seq<int>>, U: set<int>, S: set<int>, B: set<int>, a: Assignment, clause: seq<int>, p: int)
    requires Implied(cs, U, S, B) && a.Keys <= S + B
    requires clause in cs && p in clause && forall m :: m in clause ==> m == p || -m in a
    ensures Implied(cs, U, S, B + {p})
  {
    forall M | IsModel(M, cs, U) && S <= M ensures B + {p} <= M {
      ClauseForces(M, cs, U, a, clause, p);
    }
  }

  /** A clause with every literal false: no model makes the start true. */
  lemma FalsifiedRefutes(cs: seq<seq<int>>, U: set<int>, S: set<int>, B: set<int>, a: Assignment, clause: seq<int>)
    requires Implied(cs, U, S, B) && a.Keys <= S + B && clause in cs
    requires forall m :: m in clause ==> -m in a
    ensures Refuted(cs, U, S)
  {
    forall M | IsModel(M, cs, U) ensures !(S <= M) {
      assert Holds(M, clause);
      var i :| 0 <= i < |clause| && clause[i] in M;
      var m := clause[i];
      assert m in clause && -m in a.Keys;
      assert S <= M ==> a.Keys <= M;
    }
  }

  /** A literal forced while its negation is queued: no model makes the
      start true. */
  lemma ClashRefutes(cs: seq<seq<int>>, U: set<int>, S: set<int>, B: set<int>, a: Assignment, clause: seq<int>, p: int)
    requires Implied(cs, U, S, B) && a.Keys <= S + B && -p in B
    requires clause in cs && p in clause && forall m :: m in clause ==> m == p || -m in a
    ensures Refuted(cs, U, S)
  {
    forall M | IsModel(M, cs, U) ensures !(S <= M) {
      if S <= M {
        ClauseForces(M, cs, U, a, clause, p);
      }
    }
  }

  lemma StartOne(a: Assignment, l: int)
    ensures Start(a, [l]) == a.Keys + {l}
  {
    assert (set x | x in [l]) == {l};
  }

  /** Refuting what a pass implied refutes the start of the pass. */
  lemma RefutedBack(cs: seq<seq<int>>, U: set<int>, S: set<int>, B: set<int>)
    requires Implied(cs, U, S, B) && Refuted(cs, U, B)
    ensures Refuted(cs, U, S)
  {
  }

  /** Both decisions on a literal of `U` enumerated, the second after the
      first: every model of the assignment they extend is covered. */
  lemma CoveredSplit(cs: seq<seq<int>>, ds: seq<seq<int>>, U: set<int>, a: Assignment, l: int,
                     sols1: seq<Assignment>, sols2: seq<Assignment>, from: nat)
    requires l in U && ModelsKept(cs, ds, U) && sols1 <= sols2 && from <= |sols1|
    requires Covered(sols1, from, cs, U, Start(a, [l])) && Covered(sols2, |sols1|, ds, U, Start(a, [-l]))
    ensures Covered(sols2, from, cs, U, a.Keys)
  {
    StartOne(a, l);
    StartOne(a, -l);
    forall M | IsModel(M, cs, U) && a.Keys <= M
      ensures exists i :: from <= i < |sols2| && sols2[i].Keys <= M
    {
      if l in M {
        var i :| from <= i < |sols1| && sols1[i].Keys <= M;
        assert sols2[i] == sols1[i];
      } else {
        assert -l in M && IsModel(M, ds, U);
        var i :| |sols1| <= i < |sols2| && sols2[i].Keys <= M;
      }
    }
  }

  /** The two branches of `dpllRec` on `l`, the second searched after the
      first failed: the solutions of both are recorded for `a`, and when the
      second fails too, `a` is refuted or, when enumerating, covered. */
  lemma BranchesJoin(cs: seq<seq<int>>, ds: seq<seq<int>>, U: set<int>, a: Assignment, l: int,
                     s0: seq<Assignment>, s1: seq<Assignment>, s2: seq<Assignment>, base: seq<seq<int>>,
                     enumerate: bool, failed: bool)
    requires l in U && ModelsKept(cs, ds, U) && cs <= ds
    requires Recorded(s0, s1, a, cs, base) && Recorded(s1, s2, a, ds, base)
    requires !enumerate ==> s1 == s0 && Refuted(cs, U, Start(a, [l]))
    requires enumerate ==> Covered(s1, |s0|, cs, U, Start(a, [l]))
    requires failed && !enumerate ==> s2 == s1 && Refuted(ds, U, Start(a, [-l]))
    requires failed && enumerate ==> Covered(s2, |s1|, ds, U, Start(a, [-l]))
    ensures Recorded(s0, s2, a, cs, base)
    ensures failed && !enumerate ==> s2 == s0 && Refuted(cs, U, a.Keys)
    ensures failed && enumerate ==> Covered(s2, |s0|, cs, U, a.Keys)
  {
    RecordedWeaken(s1, s2, a, ds, a, cs, base);
    RecordedJoin(s0, s1, s2, a, cs, base);
    if failed && !enumerate {
      RefutedSplit(cs, ds, U, a, l);
    } else if failed {
      CoveredSplit(cs, ds, U, a, l, s1, s2, |s0|);
    }
  }

  /** Covering what a pass implied covers the start of the pass, and so
      does covering it for clauses with more models. */
  lemma CoveredBack(cs: seq<seq<int>>, ds: seq<seq<int>>, U: set<int>, S: set<int>, B: set<int>,
                    sols: seq<Assignment>, from: nat)
    requires ModelsKept(cs, ds, U) && Implied(cs, U, S, B) && Covered(sols, from, ds, U, B)
    ensures Covered(sols, from, cs, U, S)
  {
  }

  /** Both decisions on a literal of `U` refuted: so is the assignment they
      extend, since every model decides that literal. */
  lemma RefutedSplit(cs: seq<seq<int>>, ds: seq<seq<int>>, U: set<int>, a: Assignment, l: int)
    requires l in U && ModelsKept(cs, ds, U)
    requires Refuted(cs, U, Start(a, [l])) && Refuted(ds, U, Start(a, [-l]))
    ensures Refuted(cs, U, a.Keys)
  {
    StartOne(a, l);
    StartOne(a, -l);
    forall M | IsModel(M, cs, U) ensures !(a.Keys <= M) {
      assert l in M || -l in M;
      assert IsModel(M, ds, U);
    }
  }

  // ---------------------------------------------------------------------
  // Watching (sat.js:178-220): the two-watched-literal invariant

  /** The ids of the clauses watched on `-lit`, which assigning `lit` may
      falsify. */
  function Pending(w: Watches, lit: int): seq<nat> {
    if -lit in w then w[-lit] else []
  }

  /** What visiting clause `cid` adds to the index: a scan with two literals
      that are not false watches the clause on both. */
  function RewatchScan(w: Watches, cid: nat, scan: Scan): Watches {
    if scan.Open? && |scan.lits| == 2 then AddWatch(AddWatch(w, scan.lits[0], cid), scan.lits[1], cid) else w
  }

  /** The index after visiting the clauses `cids` in order under `a`. */
  function Rewatched(w: Watches, cs: seq<seq<int>>, cids: seq<nat>, a: Assignment): Watches {
    if cids == [] then w
    else
      var k := |cids| - 1;
      var w' := Rewatched(w, cs, cids[..k], a);
      if cids[k] < |cs| then RewatchScan(w', cids[k], UpToTwo(a, cs[cids[k]])) else w'
  }

  /** Visiting one more clause rewatches it after the earlier ones. */
  lemma RewatchedStep(w: Watches, cs: seq<seq<int>>, cids: seq<nat>, k: nat, a: Assignment)
    requires k < |cids| && cids[k] < |cs|
    ensures Rewatched(w, cs, cids[..k + 1], a) == RewatchScan(Rewatched(w, cs, cids[..k], a), cids[k], UpToTwo(a, cs[cids[k]]))
  {
    assert cids[..k + 1][..k] == cids[..k];
  }

  /** One more clause visited without conflict: the index is the rewatches
      of one more clause, and every clause visited so far stays repaired. */
  lemma VisitedStep(w0: Watches, w: Watches, w': Watches, cs: seq<seq<int>>, cids: seq<nat>, k: nat, a: Assignment,
                    seen: Assignment, seen': Assignment)
    requires k < |cids| && cids[k] < |cs|
    requires w == Rewatched(w0, cs, cids[..k], a) && AllRepaired(w, a, seen, cids[..k], cs)
    requires w' == RewatchScan(w, cids[k], UpToTwo(a, cs[cids[k]])) && WatchGrows(w, w') && seen.Keys <= seen'.Keys
    requires Repaired(w', a, seen', cids[k], cs[cids[k]])
    ensures w' == Rewatched(w0, cs, cids[..k + 1], a) && AllRepaired(w', a, seen', cids[..k + 1], cs)
  {
    RewatchedStep(w0, cs, cids, k, a);
    AllRepairedStep(w, w', a, seen, seen', cids[..k], cids[k], cs);
    assert cids[..k + 1] == cids[..k] + [cids[k]];
  }

  /** Clause `cid` is watched on `l`, and `l` is not false. */
  ghost predicate WatchedOpen(w: Watches, a: Assignment, cid: nat, l: int) {
    l in w && cid in w[l] && -l !in a
  }

  /** Clause `c`, with id `cid`, is watched on two of its positions whose
      literals are not false. */
  ghost predicate TwoWatched(w: Watches, a: Assignment, cid: nat, c: seq<int>) {
    exists i, j :: 0 <= i < j < |c| && WatchedOpen(w, a, cid, c[i]) && WatchedOpen(w, a, cid, c[j])
  }

  /** The watch invariant over the first `n` clauses (the input ones): each
      holds under `a`, or is watched on two positions that are not false. */
  ghost predicate WatchInv(cs: seq<seq<int>>, w: Watches, a: Assignment, n: nat) {
    n <= |cs| && forall cid :: 0 <= cid < n ==> Holds(a.Keys, cs[cid]) || TwoWatched(w, a, cid, cs[cid])
  }

  /** How a visit leaves a clause: it holds, it holds a literal queued in
      this pass, or it is watched on two positions that are not false. */
  ghost predicate Repaired(w: Watches, a: Assignment, seen: Assignment, cid: nat, c: seq<int>) {
    Holds(a.Keys, c) || Holds(seen.Keys, c) || TwoWatched(w, a, cid, c)
  }

  /** Every clause of `cids` that is stored is repaired. */
  ghost predicate AllRepaired(w: Watches, a: Assignment, seen: Assignment, cids: seq<nat>, cs: seq<seq<int>>) {
    forall j :: 0 <= j < |cids| && cids[j] < |cs| ==> Repaired(w, a, seen, cids[j], cs[cids[j]])
  }

  /** Repairs survive later visits, which only add watches and queue more
      literals. */
  lemma AllRepairedStep(w: Watches, w': Watches, a: Assignment, seen: Assignment, seen': Assignment,
                        cids: seq<nat>, cid: nat, cs: seq<seq<int>>)
    requires AllRepaired(w, a, seen, cids, cs) && WatchGrows(w, w') && seen.Keys <= seen'.Keys
    requires cid < |cs| ==> Repaired(w', a, seen', cid, cs[cid])
    ensures AllRepaired(w', a, seen', cids + [cid], cs)
  {
    var ext := cids + [cid];
    forall j | 0 <= j < |ext| && ext[j] < |cs| ensures Repaired(w', a, seen', ext[j], cs[ext[j]]) {
      if j < |cids| {
        assert ext[j] == cids[j];
        RepairedMono(w, w', a, seen, seen', cids[j], cs[cids[j]]);
      }
    }
  }

  /** The watch invariant during a pass: clauses may instead hold a queued
      literal or be waiting for their visit in `pending`. */
  ghost predicate PassWatch(cs: seq<seq<int>>, w: Watches, a: Assignment, seen: Assignment, n: nat, pending: seq<nat>) {
    n <= |cs| && forall cid: nat :: cid < n ==> Repaired(w, a, seen, cid, cs[cid]) || cid in pending
  }

  /** `buildWatchTwo` sets the invariant up: every clause is watched on its
      first two positions, and nothing is false yet. */
  lemma WatchInvStart(cs: seq<seq<int>>)
    requires forall i :: 0 <= i < |cs| ==> |cs[i]| >= 2
    ensures WatchInv(cs, WatchIndex(cs), map[], |cs|)
  {
    WatchIndexComplete(cs);
    var w := WatchIndex(cs);
    forall cid | 0 <= cid < |cs| ensures TwoWatched(w, map[], cid, cs[cid]) {
      assert WatchedOpen(w, map[], cid, cs[cid][0]) && WatchedOpen(w, map[], cid, cs[cid][1]);
    }
  }

  /** Entries in a watch list survive growth. */
  lemma WatchedGrows(w: Watches, w': Watches, a: Assignment, cid: nat, l: int)
    requires WatchedOpen(w, a, cid, l) && WatchGrows(w, w')
    ensures WatchedOpen(w', a, cid, l)
  {
    assert w[l] <= w'[l];
  }

  lemma RepairedMono(w: Watches, w': Watches, a: Assignment, seen: Assignment, seen': Assignment, cid: nat, c: seq<int>)
    requires Repaired(w, a, seen, cid, c) && WatchGrows(w, w') && seen.Keys <= seen'.Keys
    ensures Repaired(w', a, seen', cid, c)
  {
    if Holds(seen.Keys, c) {
      var i :| 0 <= i < |c| && c[i] in seen.Keys;
      assert c[i] in seen'.Keys;
    } else if !Holds(a.Keys, c) {
      var i, j :| 0 <= i < j < |c| && WatchedOpen(w, a, cid, c[i]) && WatchedOpen(w, a, cid, c[j]);
      WatchedGrows(w, w', a, cid, c[i]);
      WatchedGrows(w, w', a, cid, c[j]);
    }
  }

  lemma PassWatchStart(cs: seq<seq<int>>, w: Watches, a: Assignment, seen: Assignment, n: nat)
    requires WatchInv(cs, w, a, n)
    ensures PassWatch(cs, w, a, seen, n, [])
  {
  }

  /** Assigning `lit` breaks the invariant only for the clauses watched on
      `-lit`, which are the ones the pass visits next. */
  lemma PassWatchPop(cs: seq<seq<int>>, w: Watches, a: Assignment, seen: Assignment, n: nat, lit: int, r: Reason)
    requires PassWatch(cs, w, a, seen, n, [])
    ensures PassWatch(cs, w, a[lit := r], seen, n, Pending(w, lit))
  {
    var a' := a[lit := r];
    forall cid: nat | cid < n && cid !in Pending(w, lit) ensures Repaired(w, a', seen, cid, cs[cid]) {
      var c := cs[cid];
      if Holds(a.Keys, c) {
        var i :| 0 <= i < |c| && c[i] in a.Keys;
        assert c[i] in a'.Keys;
      } else if !Holds(seen.Keys, c) {
        var i, j :| 0 <= i < j < |c| && WatchedOpen(w, a, cid, c[i]) && WatchedOpen(w, a, cid, c[j]);
        assert c[i] != -lit && c[j] != -lit;
        assert WatchedOpen(w, a', cid, c[i]) && WatchedOpen(w, a', cid, c[j]);
      }
    }
  }

  /** Once every pending clause is repaired, the invariant is back. */
  lemma PassWatchRepair(cs: seq<seq<int>>, w: Watches, w': Watches, a: Assignment, seen: Assignment, seen': Assignment,
                        n: nat, pending: seq<nat>)
    requires PassWatch(cs, w, a, seen, n, pending) && WatchGrows(w, w') && seen.Keys <= seen'.Keys
    requires AllRepaired(w', a, seen', pending, cs)
    ensures PassWatch(cs, w', a, seen', n, [])
  {
    forall cid: nat | cid < n ensures Repaired(w', a, seen', cid, cs[cid]) {
      if cid in pending {
        var j :| 0 <= j < |pending| && pending[j] == cid;
      } else {
        RepairedMono(w, w', a, seen, seen', cid, cs[cid]);
      }
    }
  }

  /** One turn of a pass: assigning `lit` and repairing the clauses watched
      on `-lit` keeps the invariant. */
  lemma PassWatchTurn(cs: seq<seq<int>>, w: Watches, w': Watches, a: Assignment, lit: int, r: Reason,
                      seen: Assignment, seen': Assignment, n: nat)
    requires PassWatch(cs, w, a, seen, n, []) && WatchGrows(w, w') && seen.Keys <= seen'.Keys
    requires AllRepaired(w', a[lit := r], seen', Pending(w, lit), cs)
    ensures PassWatch(cs, w', a[lit := r], seen', n, [])
  {
    PassWatchPop(cs, w, a, seen, n, lit, r);
    PassWatchRepair(cs, w, w', a[lit := r], seen, seen', n, Pending(w, lit));
  }

  /** At the end of a pass every queued literal is assigned. */
  lemma PassWatchEnd(cs: seq<seq<int>>, w: Watches, a: Assignment, seen: Assignment, n: nat)
    requires PassWatch(cs, w, a, seen, n, []) && seen.Keys <= a.Keys
    ensures WatchInv(cs, w, a, n)
  {
    forall cid | 0 <= cid < n ensures Holds(a.Keys, cs[cid]) || TwoWatched(w, a, cid, cs[cid]) {
      var c := cs[cid];
      if Holds(seen.Keys, c) {
        var i :| 0 <= i < |c| && c[i] in seen.Keys;
        assert c[i] in a.Keys;
      }
    }
  }

  /** Learning and rewatching keep the invariant of an earlier assignment:
      watches only grow and the input clauses keep their ids. */
  lemma WatchInvMono(cs: seq<seq<int>>, w: Watches, ds: seq<seq<int>>, w': Watches, a: Assignment, n: nat)
    requires WatchInv(cs, w, a, n) && cs <= ds && WatchGrows(w, w')
    ensures WatchInv(ds, w', a, n)
  {
    forall cid | 0 <= cid < n ensures Holds(a.Keys, ds[cid]) || TwoWatched(w', a, cid, ds[cid]) {
      assert ds[cid] == cs[cid];
      if !Holds(a.Keys, cs[cid]) {
        var c := cs[cid];
        var i, j :| 0 <= i < j < |c| && WatchedOpen(w, a, cid, c[i]) && WatchedOpen(w, a, cid, c[j]);
        WatchedGrows(w, w', a, cid, c[i]);
        WatchedGrows(w, w', a, cid, c[j]);
      }
    }
  }

  /** Two positions whose literals are not false give a scan of two. */
  lemma UnfalsifiedTwo(a: Assignment, c: seq<int>, i: int, j: int)
    requires 0 <= i < j < |c| && -c[i] !in a && -c[j] !in a
    ensures |Unfalsified(a, c)| >= 2
  {
    UnfalsifiedAppend(a, c[..j], c[j..]);
    assert c[..j] + c[j..] == c;
    assert c[i] in c[..j] && c[j] in c[j..];
    assert c[i] in Unfalsified(a, c[..j]) && c[j] in Unfalsified(a, c[j..]);
  }

  /** The first two literals of a scan sit at two positions of the clause,
      in order. */
  lemma {:induction false} UnfalsifiedPositions(a: Assignment, c: seq<int>)
    requires |Unfalsified(a, c)| >= 2
    ensures exists i, j :: 0 <= i < j < |c| && c[i] == Unfalsified(a, c)[0] && c[j] == Unfalsified(a, c)[1]
    decreases |c|
  {
    var n := |c| - 1;
    var p := c[..n];
    var u := Unfalsified(a, p);
    if |u| >= 2 {
      UnfalsifiedPositions(a, p);
      var i, j :| 0 <= i < j < |p| && p[i] == u[0] && p[j] == u[1];
      assert c[i] == p[i] && c[j] == p[j];
    } else {
      assert |u| == 1 && Unfalsified(a, c) == u + [c[n]];
      assert u[0] in u;
      var i :| 0 <= i < |p| && p[i] == u[0];
      assert c[i] == p[i];
    }
  }

  /** A visit that finds two literals that are not false leaves the clause
      watched on their two positions. */
  lemma RewatchRepairs(w: Watches, a: Assignment, seen: Assignment, cid: nat, c: seq<int>)
    requires UpToTwo(a, c).Open? && |UpToTwo(a, c).lits| == 2
    ensures Repaired(RewatchScan(w, cid, UpToTwo(a, c)), a, seen, cid, c)
  {
    var lits := UpToTwo(a, c).lits;
    var u := Unfalsified(a, c);
    assert lits[0] == u[0] && lits[1] == u[1];
    UnfalsifiedPositions(a, c);
    var i, j :| 0 <= i < j < |c| && c[i] == u[0] && c[j] == u[1];
    var w1 := AddWatch(w, lits[0], cid);
    var w2 := AddWatch(w1, lits[1], cid);
    assert lits[0] in lits && lits[1] in lits;
    WatchedGrows(w1, w2, a, cid, lits[0]);
    assert WatchedOpen(w2, a, cid, c[i]) && WatchedOpen(w2, a, cid, c[j]);
  }

  /** The fixpoint the invariant describes: no input clause is falsified or
      unit; each is satisfied or still has two literals that are not
      false. */
  lemma WatchInvSettled(cs: seq<seq<int>>, w: Watches, a: Assignment, n: nat)
    requires WatchInv(cs, w, a, n)
    ensures forall cid :: 0 <= cid < n ==>
      UpToTwo(a, cs[cid]).ClauseSatisfied? || |UpToTwo(a, cs[cid]).lits| == 2
  {
    forall cid | 0 <= cid < n ensures UpToTwo(a, cs[cid]).ClauseSatisfied? || |UpToTwo(a, cs[cid]).lits| == 2 {
      var c := cs[cid];
      if !Holds(a.Keys, c) {
        var i, j :| 0 <= i < j < |c| && WatchedOpen(w, a, cid, c[i]) && WatchedOpen(w, a, cid, c[j]);
        UnfalsifiedTwo(a, c, i, j);
        assert forall k :: 0 <= k < |c| ==> c[k] !in a.Keys;
      }
    }
  }

  /** With every literal assigned, the invariant says every input clause
      holds. */
  lemma WatchInvSolved(cs: seq<seq<int>>, w: Watches, a: Assignment, n: nat)
    requires WatchInv(cs, w, a, n) && AllAssigned(a, cs)
    ensures forall cid :: 0 <= cid < n ==> Holds(a.Keys, cs[cid])
  {
    forall cid | 0 <= cid < n ensures Holds(a.Keys, cs[cid]) {
      var c := cs[cid];
      if TwoWatched(w, a, cid, c) {
        var i, j :| 0 <= i < j < |c| && WatchedOpen(w, a, cid, c[i]) && WatchedOpen(w, a, cid, c[j]);
        assert c[i] in a.Keys;
      }
    }
  }

  /** What a successful `simplify` amounts to: dropping the short clauses
      loses no model, every unit literal is assigned, and every model of the
      input clauses makes the whole assignment true (it makes the unit
      literals true, and propagation from them over the long clauses only
      adds literals those models make true). */
  lemma SimplifyComplete(cs: seq<seq<int>>, U: set<int>, units: seq<int>, b: Assignment)
    requires InitialUnits(Units(cs)) == Some(units)
    requires forall l :: l in units ==> l in b
    requires Implied(LongClauses(cs), U, Start(map[], units), b.Keys)
    ensures ModelsKept(NonEmpty(cs), LongClauses(cs), U)
    ensures forall l :: l in Units(cs) ==> l in b
    ensures Implied(NonEmpty(cs), U, {}, b.Keys)
  {
    LongKept(cs, U);
    InitialUnitsMeaning(Units(cs));
    forall M | IsModel(M, NonEmpty(cs), U) ensures b.Keys <= M {
      UnitsTrue(cs, U, M);
      assert Start(map[], units) <= M;
    }
  }

  /** Unit clauses on a literal and on its negation: the nonempty input
      clauses have no model. */
  lemma ComplementaryUnitsRefute(cs: seq<seq<int>>, U: set<int>)
    requires InitialUnits(Units(cs)).None?
    ensures forall M :: !IsModel(M, NonEmpty(cs), U)
  {
    InitialUnitsMeaning(Units(cs));
    var u := Units(cs);
    var i, j :| 0 <= i < |u| && 0 <= j < |u| && u[i] != 0 && u[i] == -u[j];
    forall M | IsModel(M, NonEmpty(cs), U) ensures false {
      assert u[i] in u && u[j] in u;
      UnitsTrue(cs, U, M);
    }
  }

  /** Propagating the units over the long clauses ran into a conflict: the
      nonempty input clauses have no model, since each of their models is a
      model of the long clauses that makes the units true. */
  lemma PropagationRefutes(cs: seq<seq<int>>, U: set<int>, units: seq<int>)
    requires InitialUnits(Units(cs)) == Some(units)
    requires Refuted(LongClauses(cs), U, Start(map[], units))
    ensures forall M :: !IsModel(M, NonEmpty(cs), U)
  {
    LongKept(cs, U);
    forall M | IsModel(M, NonEmpty(cs), U) ensures false {
      UnitsStart(cs, U, units, M);
    }
  }

  /** A model of the input makes the deduplicated units true. */
  lemma UnitsStart(cs: seq<seq<int>>, U: set<int>, units: seq<int>, M: set<int>)
    requires InitialUnits(Units(cs)) == Some(units) && IsModel(M, NonEmpty(cs), U)
    ensures Start(map[], units) <= M
  {
    InitialUnitsMeaning(Units(cs));
    UnitsTrue(cs, U, M);
  }

  /** Dropping the clauses shorter than two loses no model of the nonempty
      clauses. */
  lemma LongKept(cs: seq<seq<int>>, U: set<int>)
    ensures ModelsKept(NonEmpty(cs), LongClauses(cs), U)
  {
    var long := LongClauses(cs);
    forall M | IsModel(M, NonEmpty(cs), U) ensures IsModel(M, long, U) {
      forall c | c in long ensures Holds(M, c) {
        var i :| 0 <= i < |long| && long[i] == c;
      }
    }
  }

  /** A model makes the literal of every unit clause true. */
  lemma UnitsTrue(cs: seq<seq<int>>, U: set<int>, M: set<int>)
    requires IsModel(M, NonEmpty(cs), U)
    ensures forall l :: l in Units(cs) ==> l in M
  {
    forall l | l in Units(cs) ensures l in M {
      var i :| 0 <= i < |Units(cs)| && Units(cs)[i] == l;
      assert [l] in cs;
      var k :| 0 <= k < |[l]| && [l][k] in M;
    }
  }

  /** A solution that extends an assignment holding every unit literal and
      satisfies every long clause satisfies every nonempty clause. */
  lemma InputSatisfied(cs: seq<seq<int>>, a: Assignment, s: Assignment)
    requires forall l :: l in Units(cs) ==> l in a
    requires Extends(s, a)
    requires forall c :: c in LongClauses(cs) ==> Holds(s.Keys, c)
    ensures forall c :: c in cs && c != [] ==> Holds(s.Keys, c)
  {
    forall c | c in cs && c != [] ensures Holds(s.Keys, c) {
      var i :| 0 <= i < |cs| && cs[i] == c;
      if |c| == 1 {
        assert c[0] in Units(cs);
        HoldsIn(s.Keys, c, c[0]);
      }
    }
  }

  // ---------------------------------------------------------------------
  // The solver object (sat.js:42-319)

  class Solver {
    /** The clauses the solver was built from. */
    const initialDimacs: seq<seq<int>>
    /** The literals of `initialDimacs` and their negations: every clause,
        learned or not, and every assignment stays within it. */
    ghost const universe: set<int>
    var searchAllAssignments: bool
    /** `null` in JavaScript is `None`. */
    var maxNumberAssignments: Option<int>
    var allowLearnClauses: bool
    var solutions: seq<Assignment>
    /** The clauses of two literals or more, then the learned ones. */
    var dimacs: seq<seq<int>>
    var watchTwo: Watches
    var assignments: Assignment
    /** `simplify` succeeded, so `dimacs`, `watchTwo` and `assignments` are
        set up (in JavaScript they are undefined before). */
    ghost var simplified: bool
    /** The clauses `simplify` kept, which stay the first ones of `dimacs`. */
    ghost var longInput: seq<seq<int>>

    /** The watch invariant holds for `a` over the clauses `simplify` kept
        (which, during the search, stay the first ones of `dimacs`). */
    ghost predicate Searchable(a: Assignment)
      reads this`dimacs, this`watchTwo, this`longInput
    {
      WatchInv(dimacs, watchTwo, a, |longInput|)
    }

    /** What a successful `simplify` leaves for `dpll`: the kept clauses are
        the long input clauses and satisfy the watch invariant under the
        assignment, which holds every unit literal and is implied by the
        input clauses; every model of the input is a model of the stored
        clauses. */
    ghost predicate SimplifiedState()
      reads this`dimacs, this`watchTwo, this`assignments, this`longInput, this`simplified
    {
      simplified && longInput == LongClauses(initialDimacs) && longInput <= dimacs && Searchable(assignments)
      && (forall l :: l in Units(initialDimacs) ==> l in assignments)
      && ModelsKept(NonEmpty(initialDimacs), dimacs, universe)
      && Implied(NonEmpty(initialDimacs), universe, {}, assignments.Keys)
    }

    ghost predicate Valid()
      reads this`dimacs, this`watchTwo, this`assignments
    {
      ClausesOk() && WatchesOk(watchTwo, dimacs)
      && Consistent(assignments) && assignments.Keys <= universe
    }

    /** The stored clauses have two literals or more, and they and the
        given clauses stay within the universe. */
    ghost predicate ClausesOk()
      reads this`dimacs
    {
      ClausesOver(initialDimacs, universe)
      && 0 !in universe
      && ClausesOver(dimacs, universe)
      && (forall i :: 0 <= i < |dimacs| ==> |dimacs[i]| >= 2)
    }

    /** DIMACS literals are nonzero: `0` only ends a clause. */
    constructor(dimacs0: seq<seq<int>>)
      requires forall c, l :: c in dimacs0 && l in c ==> l != 0
      ensures Valid() && !simplified
      ensures initialDimacs == dimacs0 && universe == Universe(dimacs0)
      ensures !searchAllAssignments && maxNumberAssignments == None && allowLearnClauses && solutions == []
    {
      initialDimacs := dimacs0;
      universe := Universe(dimacs0);
      searchAllAssignments := false;
      maxNumberAssignments := None;
      allowLearnClauses := true;
      solutions := [];
      dimacs := [];
      watchTwo := map[];
      assignments := map[];
      simplified := false;
      longInput := [];
    }

    /** `simplify`: keep the clauses of two literals or more, take the unit
        clauses as given literals and propagate them.  Empty clauses are
        dropped. */
    method Simplify() returns (ok: bool)
      modifies this`dimacs, this`watchTwo, this`assignments, this`simplified, this`longInput
      requires Valid()
      ensures LongClauses(initialDimacs) <= dimacs && |dimacs| <= |LongClauses(initialDimacs)| + 1
      ensures InitialUnits(Units(initialDimacs)).None? ==> !ok
      ensures ok ==> Valid() && InitialUnits(Units(initialDimacs)).Some? && dimacs == LongClauses(initialDimacs)
      ensures ok ==> Propagated(dimacs, universe, map[], InitialUnits(Units(initialDimacs)).value, Given, assignments)
      ensures ok ==> SimplifiedState()
      ensures !ok ==> forall M :: !IsModel(M, NonEmpty(initialDimacs), universe)
      ensures simplified == ok
    {
      ok := false;
      dimacs := LongClauses(initialDimacs);
      longInput := dimacs;
      var initial := ProcessInitialAssignments(Units(initialDimacs));
      if initial.Some? {
        ok := PropagateGiven(initial.value);
        if ok {
          SimplifyComplete(initialDimacs, universe, initial.value, assignments);
        } else {
          PropagationRefutes(initialDimacs, universe, initial.value);
        }
      } else {
        ComplementaryUnitsRefute(initialDimacs, universe);
      }
      simplified := ok;
    }

    /** The tail of `simplify`: index the long clauses by their first two
        literals, then propagate the literals of the unit clauses as given. */
    method PropagateGiven(units: seq<int>) returns (ok: bool)
      modifies this`dimacs, this`watchTwo, this`assignments
      requires ClausesOk() && Consistent(assignments) && assignments.Keys <= universe && longInput == dimacs
      requires InitialUnits(Units(initialDimacs)) == Some(units)
      ensures old(dimacs) <= dimacs && |dimacs| <= |old(dimacs)| + 1
      ensures ok ==> Valid() && dimacs == old(dimacs) && Propagated(dimacs, universe, map[], units, Given, assignments)
      ensures ok ==> Searchable(assignments) && Implied(dimacs, universe, Start(map[], units), assignments.Keys)
      ensures !ok ==> Refuted(old(dimacs), universe, Start(map[], units))
    {
      ok := false;
      watchTwo := BuildWatchTwo();
      WatchIndexOk(dimacs);
      WatchInvStart(dimacs);
      UnitsOver(initialDimacs, universe, units);
      var as1 := MakeAssignments(map[], units, Given, true);
      if as1.Assigned? {
        assignments := as1.assignment;
        ok := true;
      }
    }

    /** `processInitialAssignments`. */
    method ProcessInitialAssignments(units: seq<int>) returns (r: Option<seq<int>>)
      ensures r == InitialUnits(units)
    {
      var res: seq<int> := [];
      for i := 0 to |units|
        invariant InitialUnits(units[..i]) == Some(res)
      {
        var x := units[i];
        assert units[..i + 1][..i] == units[..i] && units[..i + 1][i] == x;
        if x in res {
          continue;
        } else if -x in res {
          InitialUnitsStaysNone(units, i + 1);
          return None;
        } else {
          res := res + [x];
        }
      }
      assert units[..|units|] == units;
      return Some(res);
    }

    /** `buildWatchTwo`: each clause watched on its first two literals. */
    method BuildWatchTwo() returns (res: Watches)
      requires forall i :: 0 <= i < |dimacs| ==> |dimacs[i]| >= 2
      ensures res == WatchIndex(dimacs)
    {
      res := map[];
      for cid := 0 to |dimacs|
        invariant res == WatchIndex(dimacs[..cid])
      {
        var clause := dimacs[cid];
        assert dimacs[..cid + 1][..cid] == dimacs[..cid];
        res := AddWatch(res, clause[0], cid);
        res := AddWatch(res, clause[1], cid);
      }
      assert dimacs[..|dimacs|] == dimacs;
    }

    /** `upToTwoUnsatisfiedLits`. */
    method UpToTwoUnsatisfiedLits(a: Assignment, clause: seq<int>) returns (r: Scan)
      ensures r == UpToTwo(a, clause)
    {
      for i := 0 to |clause|
        invariant forall j :: 0 <= j < i ==> clause[j] !in a
      {
        if clause[i] in a {
          return ClauseSatisfied;
        }
      }
      var res: seq<int> := [];
      var i := 0;
      while i < |clause|
        invariant 0 <= i <= |clause|
        invariant res == Unfalsified(a, clause[..i]) && |res| < 2
      {
        assert clause[..i + 1][..i] == clause[..i];
        if -clause[i] !in a {
          res := res + [clause[i]];
          if |res| == 2 {
            ScanStops(a, clause, i + 1);
            return Open(res);
          }
        }
        i := i + 1;
      }
      assert clause[..i] == clause;
      ScanEnds(a, clause);
      return Open(res);
    }

    /** `decisionVariableHeuristic`. */
    method DecisionVariableHeuristic(a: Assignment) returns (res: seq<int>)
      ensures res == Candidates(a, Flatten(dimacs))
    {
      var cs := dimacs;
      res := [];
      var ci := 0;
      while ci < |cs|
        invariant 0 <= ci <= |cs|
        invariant res == Candidates(a, Flatten(cs[..ci])) && |res| < 4
      {
        var stop; ghost var at;
        res, stop, at := ScanClause(a, Flatten(cs[..ci]), cs[ci], res);
        if stop {
          CandidatesStop(a, cs, ci, at);
          return;
        }
        FlattenStep(cs, ci);
        ci := ci + 1;
      }
      assert cs[..ci] == cs;
    }


    /** The cap on recorded solutions is not reached. */
    predicate CapAllows()
      reads this`maxNumberAssignments, this`solutions
    {
      maxNumberAssignments.None? || maxNumberAssignments.value > |solutions|
    }

    /** `continueSearching`. */
    predicate ContinueSearching()
      reads this`searchAllAssignments, this`maxNumberAssignments, this`solutions
    {
      searchAllAssignments && CapAllows()
    }

    /** `recordAssignment`: push the solution unless the cap is reached. */
    method RecordAssignment(a: Assignment)
      modifies this`solutions
      ensures solutions == if old(CapAllows()) then old(solutions) + [a] else old(solutions)
    {
      if CapAllows() {
        solutions := solutions + [a];
      }
    }

    /** `addNewClause`: a learned clause of two literals or more is stored at
        index `|dimacs|` and watched on its first two literals; a shorter
        one is only logged.  When the clause is already satisfied under
        `outer`, the JavaScript code watches it under the characters of the
        string 'satisfied', that is under no literal. */
    method AddNewClause(clause: seq<int>, outer: Assignment)
      modifies this`dimacs, this`watchTwo
      requires Valid() && NoDup(clause) && forall l :: l in clause ==> l in universe && -l in universe
      ensures Valid() && WatchGrows(old(watchTwo), watchTwo)
      ensures |clause| < 2 ==> dimacs == old(dimacs) && watchTwo == old(watchTwo)
      ensures |clause| >= 2 ==> dimacs == old(dimacs) + [clause]
      ensures |clause| >= 2 && UpToTwo(outer, clause).Open? ==>
        watchTwo == AddWatch(AddWatch(old(watchTwo), clause[0], |old(dimacs)|), clause[1], |old(dimacs)|)
      ensures |clause| >= 2 && UpToTwo(outer, clause).ClauseSatisfied? ==> watchTwo == old(watchTwo)
      ensures Entailed(old(dimacs), universe, clause) ==> ModelsKept(old(dimacs), dimacs, universe)
    {
      if |clause| < 2 {
        return;
      }
      var cid := |dimacs|;
      ClausesSnoc(dimacs, universe, clause);
      dimacs := dimacs + [clause];
      WatchesOkGrow(watchTwo, old(dimacs), dimacs);
      var scan := UpToTwoUnsatisfiedLits(outer, clause);
      if scan.Open? {
        var two := FirstTwoDistinct(clause);
        AddWatchOk(watchTwo, dimacs, two[0], cid);
        watchTwo := AddWatch(watchTwo, two[0], cid);
        AddWatchOk(watchTwo, dimacs, two[1], cid);
        watchTwo := AddWatch(watchTwo, two[1], cid);
      }
      if Entailed(old(dimacs), universe, clause) {
        EntailedKept(old(dimacs), universe, clause);
      }
    }

    /** The loop of `addNewClause` that collects the first two distinct
        literals of a learned clause; a learned clause repeats no literal,
        so they are its first two. */
    static method FirstTwoDistinct(clause: seq<int>) returns (two: seq<int>)
      requires |clause| >= 2 && NoDup(clause)
      ensures two == clause[..2]
    {
      forall j | 0 <= j < |clause| ensures clause[j] !in clause[..j] {
        NoDupFresh(clause, j);
      }
      two := [];
      var i := 0;
      while i < |clause|
        invariant 0 <= i <= |clause| && two == clause[..i] && |two| < 2
      {
        if clause[i] !in two {
          two := two + [clause[i]];
          if |two| == 2 {
            break;
          }
        }
        i := i + 1;
      }
    }

    /** `analyzeConflict`: the literal `conflictLit` was forced by the clause
        `earlier` and its negation by `laterClause`; their resolvent is
        learned when learning is on.  An earlier reason that is not a clause
        (a given or assumed literal) learns nothing. */
    method AnalyzeConflict(laterClause: seq<int>, earlier: Reason, conflictLit: int, outer: Assignment)
      modifies this`dimacs, this`watchTwo
      requires Valid()
      requires forall l :: l in laterClause ==> l in universe && -l in universe
      requires earlier.ByClause? ==> forall l :: l in earlier.clause ==> l in universe && -l in universe
      ensures Valid() && WatchGrows(old(watchTwo), watchTwo)
      ensures old(dimacs) <= dimacs && |dimacs| <= |old(dimacs)| + 1
      ensures earlier.ByClause? && allowLearnClauses &&
              |Resolvent(earlier.clause, laterClause, conflictLit)| >= 2 ==>
        dimacs == old(dimacs) + [Resolvent(earlier.clause, laterClause, conflictLit)]
      ensures !(earlier.ByClause? && allowLearnClauses &&
                |Resolvent(earlier.clause, laterClause, conflictLit)| >= 2) ==>
        dimacs == old(dimacs) && watchTwo == old(watchTwo)
      ensures (earlier.ByClause? ==> Clashing(old(dimacs), earlier.clause, laterClause, conflictLit)) ==>
        ModelsKept(old(dimacs), dimacs, universe)
    {
      if !earlier.ByClause? {
        return;
      }
      if Clashing(dimacs, earlier.clause, laterClause, conflictLit) {
        ResolventEntailed(dimacs, universe, earlier.clause, laterClause, conflictLit);
      }
      var res := Resolve(earlier.clause, laterClause, conflictLit);
      if allowLearnClauses {
        AddNewClause(res, outer);
      }
    }

    /** `makeAssignment`: propagate a single literal. */
    method MakeAssignment(a0: Assignment, lit0: int, reason0: Reason, ghost track: bool) returns (r: Propagation)
      modifies this`dimacs, this`watchTwo
      requires Valid() && Consistent(a0) && a0.Keys <= universe
      requires lit0 in universe && lit0 !in a0 && -lit0 !in a0 && !reason0.ByClause?
      requires track ==> Searchable(a0)
      ensures Valid() && old(dimacs) <= dimacs && |dimacs| <= |old(dimacs)| + 1
      ensures WatchGrows(old(watchTwo), watchTwo) && ModelsKept(old(dimacs), dimacs, universe)
      ensures r.Assigned? ==> dimacs == old(dimacs) && Propagated(dimacs, universe, a0, [lit0], reason0, r.assignment)
      ensures r.Assigned? ==> Implied(dimacs, universe, Start(a0, [lit0]), r.assignment.Keys)
      ensures r.Conflict? ==> Refuted(old(dimacs), universe, Start(a0, [lit0]))
      ensures r.Assigned? && track ==> Searchable(r.assignment)
    {
      r := MakeAssignments(a0, [lit0], reason0, track);
    }

    /** `makeAssignments`: a first-in first-out worklist of unit propagation
        over the watch index.  A conflict is reported when a watched clause
        has no literal left that is not false, or when a literal is forced
        whose negation was queued in the same pass; the latter learns a
        clause.  A conflict means no model makes the starting literals true;
        a successful pass assigns only literals every such model makes true,
        and leaves the watch invariant, and so a fixpoint, behind. */
    method MakeAssignments(a0: Assignment, lits0: seq<int>, reason0: Reason, ghost track: bool) returns (r: Propagation)
      modifies this`dimacs, this`watchTwo
      requires Valid() && Consistent(a0) && a0.Keys <= universe
      requires NoDup(lits0) && !reason0.ByClause?
      requires forall l :: l in lits0 ==> l in universe && l !in a0 && -l !in a0
      requires forall l, m :: l in lits0 && m in lits0 ==> l != -m
      requires track ==> Searchable(a0)
      ensures Valid() && old(dimacs) <= dimacs && |dimacs| <= |old(dimacs)| + 1
      ensures WatchGrows(old(watchTwo), watchTwo) && ModelsKept(old(dimacs), dimacs, universe)
      ensures r.Assigned? ==> dimacs == old(dimacs) && Propagated(dimacs, universe, a0, lits0, reason0, r.assignment)
      ensures r.Assigned? ==> Implied(dimacs, universe, Start(a0, lits0), r.assignment.Keys)
      ensures r.Conflict? ==> Refuted(old(dimacs), universe, Start(a0, lits0))
      ensures r.Assigned? && track ==> Searchable(r.assignment)
    {
      ghost var n := |longInput|;
      var lits, seenLits := QueueStart(lits0, reason0);
      PassStart(dimacs, universe, a0, lits0, reason0, lits, seenLits);
      if track {
        PassWatchStart(dimacs, watchTwo, a0, seenLits, n);
      }
      var a := a0;
      while lits != []
        invariant Valid() && dimacs == old(dimacs) && WatchGrows(old(watchTwo), watchTwo)
        invariant PassInvariant(dimacs, universe, a0, lits0, reason0, lits, seenLits, a)
        invariant track ==> PassWatch(dimacs, watchTwo, a, seenLits, n, [])
        decreases 2 * |universe - seenLits.Keys| + |lits|
      {
        var conflict;
        conflict, lits, seenLits, a := PassTurn(a, a0, lits0, reason0, lits, seenLits, track, n);
        if conflict {
          return Conflict;
        }
      }
      PassEnd(dimacs, universe, a0, lits0, reason0, seenLits, a);
      if track {
        PassWatchEnd(dimacs, watchTwo, a, seenLits, n);
      }
      return Assigned(a);
    }

    /** The first loop of `makeAssignments`: queue every starting literal
        with the starting reason, and mark it seen. */
    static method QueueStart(lits0: seq<int>, reason0: Reason) returns (lits: seq<(int, Reason)>, seenLits: Assignment)
      ensures |lits| == |lits0| && forall i :: 0 <= i < |lits| ==> lits[i] == (lits0[i], reason0)
      ensures forall l :: l in seenLits <==> l in lits0
      ensures forall l :: l in seenLits ==> seenLits[l] == reason0
    {
      lits, seenLits := [], map[];
      for i := 0 to |lits0|
        invariant |lits| == i && forall j :: 0 <= j < i ==> lits[j] == (lits0[j], reason0)
        invariant forall l :: l in seenLits <==> l in lits0[..i]
        invariant forall l :: l in seenLits ==> seenLits[l] == reason0
      {
        assert lits0[..i + 1] == lits0[..i] + [lits0[i]];
        lits := lits + [(lits0[i], reason0)];
        seenLits := seenLits[lits0[i] := reason0];
      }
      assert lits0[..|lits0|] == lits0;
    }

    /** One turn of the `while` loop of `makeAssignments`: take the first
        queued literal off the queue, assign it with its reason, and visit
        the clauses watched on its negation.  Without a conflict, the watch
        invariant of the pass is kept. */
    method PassTurn(a: Assignment, a0: Assignment, ghost lits0: seq<int>, ghost reason0: Reason,
                    lits: seq<(int, Reason)>, seenLits: Assignment, ghost track: bool, ghost n: nat)
      returns (conflict: bool, lits': seq<(int, Reason)>, seen': Assignment, a': Assignment)
      modifies this`dimacs, this`watchTwo
      requires Valid() && lits != [] && !reason0.ByClause?
      requires PassInvariant(dimacs, universe, a0, lits0, reason0, lits, seenLits, a)
      requires track ==> PassWatch(dimacs, watchTwo, a, seenLits, n, [])
      ensures Valid() && old(dimacs) <= dimacs && |dimacs| <= |old(dimacs)| + 1
      ensures WatchGrows(old(watchTwo), watchTwo) && ModelsKept(old(dimacs), dimacs, universe)
      ensures lits[0].0 !in a && -lits[0].0 !in a && a' == a[lits[0].0 := lits[0].1]
      ensures !conflict ==> dimacs == old(dimacs) && PassInvariant(dimacs, universe, a0, lits0, reason0, lits', seen', a')
      ensures !conflict ==> 2 * |universe - seen'.Keys| + |lits'| < 2 * |universe - seenLits.Keys| + |lits|
      ensures !conflict && track ==> PassWatch(dimacs, watchTwo, a', seen', n, [])
      ensures conflict ==> Refuted(old(dimacs), universe, Start(a0, lits0))
    {
      var lit := lits[0].0;
      var reason := lits[0].1;
      PopStep(dimacs, universe, a0, lits0, reason0, lits, seenLits, a);
      var rest := lits[1..];
      a' := a[lit := reason];
      conflict, lits', seen' := PropagateWatched(lit, a', a0, lits0, reason0, rest, seenLits);
      if !conflict && track {
        PassWatchTurn(dimacs, old(watchTwo), watchTwo, a, lit, reason, seenLits, seen', n);
      }
    }

    /** The rest of one turn of the `while` loop of `makeAssignments`, once
        `lit` is assigned: every clause watched on `-lit` is scanned under
        `a`.  A satisfied clause is skipped, a clause with no literal left
        that is not false is a conflict, a clause with one such literal
        forces it (queued unless already seen; a conflict, after learning,
        when its negation was seen), and a clause with two is watched on
        them too.  Without a conflict, the new index is exactly those
        rewatches in order, and every visited clause is repaired. */
    method PropagateWatched(lit: int, a: Assignment, a0: Assignment, ghost lits0: seq<int>, ghost reason0: Reason,
                            lits: seq<(int, Reason)>, seenLits: Assignment)
      returns (conflict: bool, lits': seq<(int, Reason)>, seen': Assignment)
      modifies this`dimacs, this`watchTwo
      requires Valid() && lit in a && !reason0.ByClause?
      requires PassInvariant(dimacs, universe, a0, lits0, reason0, lits, seenLits, a)
      ensures Valid() && old(dimacs) <= dimacs && |dimacs| <= |old(dimacs)| + 1
      ensures WatchGrows(old(watchTwo), watchTwo) && ModelsKept(old(dimacs), dimacs, universe)
      ensures !conflict ==> dimacs == old(dimacs) && PassInvariant(dimacs, universe, a0, lits0, reason0, lits', seen', a)
      ensures !conflict ==> 2 * |universe - seen'.Keys| + |lits'| <= 2 * |universe - seenLits.Keys| + |lits|
      ensures !conflict ==> seenLits.Keys <= seen'.Keys
      ensures !conflict ==> watchTwo == Rewatched(old(watchTwo), dimacs, Pending(old(watchTwo), lit), a)
      ensures !conflict ==> AllRepaired(watchTwo, a, seen', Pending(old(watchTwo), lit), dimacs)
      ensures conflict ==> Refuted(old(dimacs), universe, Start(a0, lits0))
    {
      conflict, lits', seen' := false, lits, seenLits;
      if -lit !in watchTwo {
        return;
      }
      var cids := watchTwo[-lit];
      ghost var (cs, w0) := (dimacs, watchTwo);
      for k := 0 to |cids|
        invariant Valid() && dimacs == cs && WatchGrows(w0, watchTwo)
        invariant PassInvariant(cs, universe, a0, lits0, reason0, lits', seen', a)
        invariant 2 * |universe - seen'.Keys| + |lits'| <= 2 * |universe - seenLits.Keys| + |lits|
        invariant seenLits.Keys <= seen'.Keys
        invariant watchTwo == Rewatched(w0, cs, cids[..k], a)
        invariant AllRepaired(watchTwo, a, seen', cids[..k], cs)
      {
        var cid := cids[k];
        assert cids <= watchTwo[-lit] && cid in watchTwo[-lit];
        ghost var (litsBefore, seenBefore, wBefore) := (lits', seen', watchTwo);
        conflict, lits', seen' := VisitClause(cid, a, a0, lits0, reason0, lits', seen');
        if conflict {
          return;
        }
        QueueStepMeasure(universe, litsBefore, seenBefore, lits', seen');
        VisitedStep(w0, wBefore, watchTwo, cs, cids, k, a, seenBefore, seen');
      }
      assert cids[..|cids|] == cids;
    }

    /** One clause watched on a literal that just became false. */
    method VisitClause(cid: nat, a: Assignment, a0: Assignment, ghost lits0: seq<int>, ghost reason0: Reason,
                       lits: seq<(int, Reason)>, seenLits: Assignment)
      returns (conflict: bool, lits': seq<(int, Reason)>, seen': Assignment)
      modifies this`dimacs, this`watchTwo
      requires Valid() && cid < |dimacs| && !reason0.ByClause?
      requires PassInvariant(dimacs, universe, a0, lits0, reason0, lits, seenLits, a)
      ensures Valid() && old(dimacs) <= dimacs && |dimacs| <= |old(dimacs)| + 1
      ensures WatchGrows(old(watchTwo), watchTwo) && ModelsKept(old(dimacs), dimacs, universe)
      ensures !conflict ==> dimacs == old(dimacs) && QueueStep(universe, lits, seenLits, lits', seen')
      ensures !conflict ==> PassInvariant(dimacs, universe, a0, lits0, reason0, lits', seen', a)
      ensures !conflict ==> watchTwo == RewatchScan(old(watchTwo), cid, UpToTwo(a, old(dimacs[cid])))
      ensures !conflict ==> Repaired(watchTwo, a, seen', cid, old(dimacs[cid]))
      ensures conflict ==> Refuted(old(dimacs), universe, Start(a0, lits0))
      ensures conflict <==> UnitConflict(UpToTwo(a, old(dimacs[cid])), seenLits)
    {
      var clause := dimacs[cid];
      assert clause in dimacs;
      var two := UpToTwoUnsatisfiedLits(a, clause);
      if two.ClauseSatisfied? {
        conflict, lits', seen' := false, lits, seenLits;
        var i :| 0 <= i < |clause| && clause[i] in a;
        HoldsIn(a.Keys, clause, clause[i]);
      } else if |two.lits| == 0 {
        conflict, lits', seen' := true, lits, seenLits;
        EmptyScanRefutes(dimacs, universe, a0, lits0, reason0, lits, seenLits, a, clause);
      } else if |two.lits| == 1 {
        conflict, lits', seen' := VisitUnit(clause, a, a0, lits0, reason0, lits, seenLits);
      } else {
        conflict, lits', seen' := false, lits, seenLits;
        assert two.lits[0] in two.lits && two.lits[1] in two.lits;
        RewatchRepairs(watchTwo, a, seen', cid, clause);
        Rewatch(cid, two.lits[0], two.lits[1]);
      }
    }

    /** A watched clause with a single literal that is not false: that
        literal is forced.  It is dropped when already seen, is a conflict
        (after learning from the clause that forced its negation) when its
        negation was seen, and is queued otherwise. */
    method VisitUnit(clause: seq<int>, a: Assignment, a0: Assignment, ghost lits0: seq<int>, ghost reason0: Reason,
                     lits: seq<(int, Reason)>, seenLits: Assignment)
      returns (conflict: bool, lits': seq<(int, Reason)>, seen': Assignment)
      modifies this`dimacs, this`watchTwo
      requires Valid() && clause in dimacs && !reason0.ByClause?
      requires UpToTwo(a, clause).Open? && |UpToTwo(a, clause).lits| == 1
      requires PassInvariant(dimacs, universe, a0, lits0, reason0, lits, seenLits, a)
      ensures Valid() && old(dimacs) <= dimacs && |dimacs| <= |old(dimacs)| + 1
      ensures WatchGrows(old(watchTwo), watchTwo) && ModelsKept(old(dimacs), dimacs, universe)
      ensures !conflict ==> dimacs == old(dimacs) && watchTwo == old(watchTwo)
      ensures !conflict ==> QueueStep(universe, lits, seenLits, lits', seen') && Holds(seen'.Keys, clause)
      ensures !conflict ==> PassInvariant(dimacs, universe, a0, lits0, reason0, lits', seen', a)
      ensures conflict ==> Refuted(old(dimacs), universe, Start(a0, lits0))
      ensures conflict <==> UnitConflict(UpToTwo(a, clause), seenLits)
    {
      conflict, lits', seen' := false, lits, seenLits;
      var plit := UpToTwo(a, clause).lits[0];
      UnitScan(a, clause);
      if plit in seenLits {
        HoldsIn(seen'.Keys, clause, plit);
        return;
      }
      if -plit in seenLits {
        UnitClash(clause, a, a0, lits0, reason0, lits, seenLits, plit);
        conflict := true;
        return;
      }
      UnitPush(dimacs, universe, a0, lits0, reason0, lits, seenLits, a, clause, plit);
      lits' := lits + [(plit, ByClause(clause))];
      seen' := seenLits[plit := ByClause(clause)];
    }

    /** A watched clause forces `plit` while `-plit` was seen in the same
        pass: learn from the two clauses, and report that no model makes the
        starting literals true. */
    method UnitClash(clause: seq<int>, a: Assignment, a0: Assignment, ghost lits0: seq<int>, ghost reason0: Reason,
                     ghost lits: seq<(int, Reason)>, seenLits: Assignment, plit: int)
      modifies this`dimacs, this`watchTwo
      requires Valid() && clause in dimacs && !reason0.ByClause?
      requires UpToTwo(a, clause).Open? && |UpToTwo(a, clause).lits| == 1 && plit == UpToTwo(a, clause).lits[0]
      requires PassInvariant(dimacs, universe, a0, lits0, reason0, lits, seenLits, a) && -plit in seenLits
      ensures Valid() && old(dimacs) <= dimacs && |dimacs| <= |old(dimacs)| + 1
      ensures WatchGrows(old(watchTwo), watchTwo) && ModelsKept(old(dimacs), dimacs, universe)
      ensures Refuted(old(dimacs), universe, Start(a0, lits0))
    {
      var earlier := seenLits[-plit];
      SeenClash(dimacs, universe, a0, lits0, reason0, lits, seenLits, a, clause, plit, earlier);
      AnalyzeConflict(clause, earlier, -plit, a0);
    }

    /** Watch clause `cid` on two of its literals as well (`mapOfSetsAdd`
        twice). */
    method Rewatch(cid: nat, v0: int, v1: int)
      modifies this`watchTwo
      requires Valid() && cid < |dimacs| && v0 in dimacs[cid] && v1 in dimacs[cid]
      ensures Valid() && WatchGrows(old(watchTwo), watchTwo)
      ensures watchTwo == AddWatch(AddWatch(old(watchTwo), v0, cid), v1, cid)
    {
      AddWatchOk(watchTwo, dimacs, v0, cid);
      watchTwo := AddWatch(watchTwo, v0, cid);
      AddWatchOk(watchTwo, dimacs, v1, cid);
      watchTwo := AddWatch(watchTwo, v1, cid);
    }

    /** `dpllRec`: when no literal is left to decide, record the assignment
        and stop unless enumeration goes on; otherwise decide a candidate
        literal (any of them: the JavaScript code picks one at random), and
        on failure its negation.  Every solution recorded satisfies the
        clauses `simplify` kept, and a contradiction without enumeration
        means no model of the stored clauses extends `a`. */
    method DpllRec(a: Assignment) returns (r: Status)
      modifies this`dimacs, this`watchTwo, this`solutions
      requires Valid() && Consistent(a) && a.Keys <= universe && longInput <= dimacs && Searchable(a)
      ensures Valid() && old(dimacs) <= dimacs && WatchGrows(old(watchTwo), watchTwo)
      ensures ModelsKept(old(dimacs), dimacs, universe)
      ensures Recorded(old(solutions), solutions, a, old(dimacs), longInput)
      ensures maxNumberAssignments.Some? && |old(solutions)| <= maxNumberAssignments.value ==>
        |solutions| <= maxNumberAssignments.value
      ensures r == Satisfied ==> !ContinueSearching() && (|solutions| > |old(solutions)| || !CapAllows())
      ensures r == Contradiction && !searchAllAssignments ==>
        solutions == old(solutions) && Refuted(old(dimacs), universe, a.Keys)
      ensures r == Contradiction && searchAllAssignments ==>
        Covered(solutions, |old(solutions)|, old(dimacs), universe, a.Keys)
      decreases |universe - a.Keys|, 1
    {
      var someNextLits := DecisionVariableHeuristic(a);
      if someNextLits == [] {
        NoCandidates(a, dimacs, dimacs);
        r := Found(a);
        return;
      }
      var nextLit := ChooseCandidate(someNextLits);
      CandidatesMeaning(a, Flatten(dimacs));
      FlattenOver(dimacs, universe, nextLit);
      r := Decide(a, nextLit);
      if r != Contradiction {
        return;
      }
      ghost var (s1, d1) := (solutions, dimacs);
      WatchInvMono(old(dimacs), old(watchTwo), dimacs, watchTwo, a, |longInput|);
      r := Decide(a, -nextLit);
      BranchesJoin(old(dimacs), d1, universe, a, nextLit, old(solutions), s1, solutions, longInput,
                   searchAllAssignments, r == Contradiction);
    }

    /** The end of `dpllRec` when every literal is assigned: record the
        assignment, then report a contradiction to go on enumerating, or
        success.  The assignment satisfies every clause `simplify` kept. */
    method Found(a: Assignment) returns (r: Status)
      modifies this`solutions
      requires Consistent(a) && AllAssigned(a, dimacs) && longInput <= dimacs && Searchable(a)
      ensures solutions == if old(CapAllows()) then old(solutions) + [a] else old(solutions)
      ensures Recorded(old(solutions), solutions, a, dimacs, longInput)
      ensures maxNumberAssignments.Some? && |old(solutions)| <= maxNumberAssignments.value ==>
        |solutions| <= maxNumberAssignments.value
      ensures r == Satisfied ==> !ContinueSearching() && (|solutions| > |old(solutions)| || !CapAllows())
      ensures r == Contradiction && !searchAllAssignments ==> solutions == old(solutions)
      ensures r == Contradiction <==> ContinueSearching()
      ensures r == Contradiction ==> Covered(solutions, |old(solutions)|, dimacs, universe, a.Keys)
    {
      WatchInvSolved(dimacs, watchTwo, a, |longInput|);
      forall c | c in longInput ensures Holds(a.Keys, c) {
        var k :| 0 <= k < |longInput| && longInput[k] == c;
        assert dimacs[k] == c;
      }
      RecordAssignment(a);
      if ContinueSearching() {
        assert solutions[|old(solutions)|] == a;
        return Contradiction;
      } else {
        return Satisfied;
      }
    }

    /** One branch of `dpllRec`: assume `lit` and propagate; on success,
        search on from the extended assignment.  A contradiction without
        enumeration means no model of the stored clauses extends `a` with
        `lit`. */
    method Decide(a: Assignment, lit: int) returns (r: Status)
      modifies this`dimacs, this`watchTwo, this`solutions
      requires Valid() && Consistent(a) && a.Keys <= universe && longInput <= dimacs && Searchable(a)
      requires lit in universe && lit !in a && -lit !in a
      ensures Valid() && old(dimacs) <= dimacs && WatchGrows(old(watchTwo), watchTwo)
      ensures ModelsKept(old(dimacs), dimacs, universe)
      ensures Recorded(old(solutions), solutions, a, old(dimacs), longInput)
      ensures maxNumberAssignments.Some? && |old(solutions)| <= maxNumberAssignments.value ==>
        |solutions| <= maxNumberAssignments.value
      ensures r == Satisfied ==> !ContinueSearching() && (|solutions| > |old(solutions)| || !CapAllows())
      ensures r == Contradiction && !searchAllAssignments ==>
        solutions == old(solutions) && Refuted(old(dimacs), universe, Start(a, [lit]))
      ensures r == Contradiction && searchAllAssignments ==>
        Covered(solutions, |old(solutions)|, old(dimacs), universe, Start(a, [lit]))
      decreases |universe - a.Keys|, 0
    {
      var as1 := MakeAssignment(a, lit, Assumption, true);
      if as1.Conflict? {
        return Contradiction;
      }
      Shrinks(universe, a, as1.assignment, lit);
      ghost var d0 := dimacs;
      r := DpllRec(as1.assignment);
      RecordedWeaken(old(solutions), solutions, as1.assignment, d0, a, old(dimacs), longInput);
      if r == Contradiction && !searchAllAssignments {
        RefutedBack(d0, universe, Start(a, [lit]), as1.assignment.Keys);
      } else if r == Contradiction {
        CoveredBack(d0, d0, universe, Start(a, [lit]), as1.assignment.Keys, solutions, |old(solutions)|);
      }
    }

    /** `dpll`: search from the assignment `simplify` produced.  Every
        solution recorded satisfies every nonempty input clause, and a
        contradiction without enumeration means the input has no model. */
    method Dpll() returns (r: Status)
      modifies this`dimacs, this`watchTwo, this`solutions
      requires Valid() && SimplifiedState()
      ensures Valid() && SimplifiedState() && old(dimacs) <= dimacs && WatchGrows(old(watchTwo), watchTwo)
      ensures Recorded(old(solutions), solutions, assignments, old(dimacs), longInput)
      ensures forall i :: |old(solutions)| <= i < |solutions| ==>
        forall c :: c in NonEmpty(initialDimacs) ==> Holds(solutions[i].Keys, c)
      ensures maxNumberAssignments.Some? && |old(solutions)| <= maxNumberAssignments.value ==>
        |solutions| <= maxNumberAssignments.value
      ensures r == Satisfied ==> !ContinueSearching() && (|solutions| > |old(solutions)| || !CapAllows())
      ensures r == Contradiction && !searchAllAssignments ==>
        solutions == old(solutions) && forall M :: !IsModel(M, NonEmpty(initialDimacs), universe)
      ensures r == Contradiction && searchAllAssignments ==>
        Covered(solutions, |old(solutions)|, NonEmpty(initialDimacs), universe, {})
    {
      r := DpllRec(assignments);
      WatchInvMono(old(dimacs), old(watchTwo), dimacs, watchTwo, assignments, |longInput|);
      forall i | |old(solutions)| <= i < |solutions|
        ensures forall c :: c in NonEmpty(initialDimacs) ==> Holds(solutions[i].Keys, c)
      {
        InputSatisfied(initialDimacs, assignments, solutions[i]);
      }
    }
  }

  /** `chooseRandomArrayElement`: which element is picked is left open. */
  method ChooseCandidate(lits: seq<int>) returns (l: int)
    requires lits != []
    ensures l in lits
  {
    ghost var first := lits[0];
    assert first in lits;
    l :| l in lits;
  }

  /** The literals of a stored clause and their negations belong to the
      universe. */
  lemma ClauseWithin(cs: seq<seq<int>>, U: set<int>, c: seq<int>)
    requires ClausesOver(cs, U) && c in cs
    ensures forall l :: l in c ==> l in U && -l in U
  {
  }

  /** A candidate literal and its negation belong to the universe. */
  lemma FlattenOver(cs: seq<seq<int>>, U: set<int>, l: int)
    requires ClausesOver(cs, U) && l in Flatten(cs)
    ensures l in U && -l in U
  {
    FlattenIn(cs, l);
  }

  lemma FlattenIn(cs: seq<seq<int>>, l: int)
    requires l in Flatten(cs)
    ensures exists c :: c in cs && l in c
    decreases |cs|
  {
    var n := |cs| - 1;
    if l in Flatten(cs[..n]) {
      FlattenIn(cs[..n], l);
      var c :| c in cs[..n] && l in c;
      assert c in cs;
    } else {
      assert cs[n] in cs;
    }
  }
}
