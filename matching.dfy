/**
 * The greedy matcher at the end of `process_similar_keys`: for each key of the
 * first file, in order, it collects that key's surviving pairs in the second
 * file's key order, sorts them by descending score with a stable sort, takes
 * the first as the match and deletes that key's pairs from the score map.
 * Only the current key's pairs are deleted, so a key of the second file can
 * be matched by several keys of the first.
 */
module Matching {
  import opened Wrappers
  import opened Bib
  import opened Scoring

  /** The tuple `(k1, k2, score)` the matcher sorts. */
  datatype Candidate = Candidate(k1: Key, k2: Key, score: real)

  function PairOf(c: Candidate): Pair {
    (c.k1, c.k2)
  }

  // ---------------------------------------------------------------------
  // entries.sort(key=lambda a: a[2], reverse=True)

  predicate Descending(s: seq<Candidate>) {
    forall i, j :: 0 <= i < j < |s| ==> s[i].score >= s[j].score
  }

  /** Places `c` in front of the first element that does not score higher. */
  function Insert(c: Candidate, s: seq<Candidate>): seq<Candidate> {
    if s == [] || c.score >= s[0].score then [c] + s
    else [s[0]] + Insert(c, s[1..])
  }

  lemma {:induction false} InsertPermutes(c: Candidate, s: seq<Candidate>)
    ensures multiset(Insert(c, s)) == multiset{c} + multiset(s)
  {
    if s != [] && c.score < s[0].score {
      InsertPermutes(c, s[1..]);
      assert s == [s[0]] + s[1..];
    }
  }

  /** A descending sequence stays descending when an element scoring at least
      as much as all of it is put in front. */
  lemma ConsDescending(x: Candidate, s: seq<Candidate>)
    requires Descending(s)
    requires forall y :: y in s ==> y.score <= x.score
    ensures Descending([x] + s)
  {
    var r := [x] + s;
    forall i, j | 0 <= i < j < |r| ensures r[i].score >= r[j].score {
      assert r[j] == s[j - 1];
      if i > 0 {
        assert r[i] == s[i - 1];
      }
    }
  }

  lemma {:induction false} InsertDescending(c: Candidate, s: seq<Candidate>)
    requires Descending(s)
    ensures Descending(Insert(c, s))
  {
    if s == [] || c.score >= s[0].score {
      forall y | y in s ensures y.score <= c.score {
        var k :| 0 <= k < |s| && s[k] == y;
        assert s[0].score >= s[k].score;
      }
      ConsDescending(c, s);
    } else {
      var t := Insert(c, s[1..]);
      assert Descending(s[1..]) by {
        forall i, j | 0 <= i < j < |s[1..]| ensures s[1..][i].score >= s[1..][j].score {
          assert s[1..][i] == s[i + 1] && s[1..][j] == s[j + 1];
        }
      }
      InsertDescending(c, s[1..]);
      InsertPermutes(c, s[1..]);
      forall y | y in t ensures y.score <= s[0].score {
        assert y in multiset(t);
        if y != c {
          assert y in multiset(s[1..]);
          var k :| 0 <= k < |s[1..]| && s[1..][k] == y;
          assert s[k + 1] == y;
        }
      }
      ConsDescending(s[0], t);
    }
  }

  /** A stable sort by descending score (an insertion sort). */
  function SortDescending(s: seq<Candidate>): seq<Candidate> {
    if s == [] then [] else Insert(s[0], SortDescending(s[1..]))
  }

  /** The sorted sequence is a permutation of the input, in descending order. */
  lemma {:induction false} SortDescendingSorts(s: seq<Candidate>)
    ensures multiset(SortDescending(s)) == multiset(s)
    ensures |SortDescending(s)| == |s|
    ensures Descending(SortDescending(s))
  {
    if s != [] {
      var sorted := SortDescending(s[1..]);
      SortDescendingSorts(s[1..]);
      InsertDescending(s[0], sorted);
      InsertPermutes(s[0], sorted);
      assert s == [s[0]] + s[1..];
      assert |SortDescending(s)| == |multiset(SortDescending(s))|;
    }
  }

  /** The elements scoring exactly `v`, in order. */
  function WithScore(s: seq<Candidate>, v: real): seq<Candidate> {
    if s == [] then [] else (if s[0].score == v then [s[0]] else []) + WithScore(s[1..], v)
  }

  lemma {:induction false} InsertStable(c: Candidate, s: seq<Candidate>, v: real)
    ensures WithScore(Insert(c, s), v) == (if c.score == v then [c] else []) + WithScore(s, v)
  {
    var mine := if c.score == v then [c] else [];
    if s == [] || c.score >= s[0].score {
      var r := [c] + s;
      assert r[0] == c && r[1..] == s;
      assert WithScore(r, v) == mine + WithScore(s, v);
    } else {
      var t := Insert(c, s[1..]);
      var r := [s[0]] + t;
      assert r[0] == s[0] && r[1..] == t;
      var head := if s[0].score == v then [s[0]] else [];
      assert WithScore(r, v) == head + WithScore(t, v);
      InsertStable(c, s[1..], v);
      assert WithScore(s, v) == head + WithScore(s[1..], v);
      if c.score == v {
        assert head == [];
      } else {
        assert mine == [];
      }
    }
  }

  /** Stability: elements of equal score keep their relative order. */
  lemma {:induction false} SortStable(s: seq<Candidate>, v: real)
    ensures WithScore(SortDescending(s), v) == WithScore(s, v)
  {
    if s != [] {
      SortStable(s[1..], v);
      InsertStable(s[0], SortDescending(s[1..]), v);
    }
  }

  /** The first element of highest score: an independent account of what the
      head of the stable descending sort is. */
  function FirstMax(s: seq<Candidate>): Candidate
    requires s != []
  {
    if |s| == 1 then s[0]
    else var m := FirstMax(s[1..]); if s[0].score >= m.score then s[0] else m
  }

  lemma {:induction false} SortHead(s: seq<Candidate>)
    requires s != []
    ensures SortDescending(s) != [] && SortDescending(s)[0] == FirstMax(s)
  {
    SortDescendingSorts(s);
    if |s| > 1 {
      SortHead(s[1..]);
    }
  }

  // ---------------------------------------------------------------------
  // The candidates of one key of the first file

  /** `[(k1, k2, agg[(k1, k2)]) for k2 in keys2 if (k1, k2) in agg]`. */
  function Candidates(k1: Key, keys2: seq<Key>, agg: map<Pair, real>): (c: seq<Candidate>)
    ensures forall x :: x in c <==> x.k1 == k1 && x.k2 in keys2 && (k1, x.k2) in agg && x.score == agg[(k1, x.k2)]
  {
    if keys2 == [] then []
    else (if (k1, keys2[0]) in agg then [Candidate(k1, keys2[0], agg[(k1, keys2[0])])] else [])
         + Candidates(k1, keys2[1..], agg)
  }

  predicate HasCandidate(k1: Key, keys2: seq<Key>, agg: map<Pair, real>) {
    exists k2 :: k2 in keys2 && (k1, k2) in agg
  }

  lemma CandidatesEmpty(k1: Key, keys2: seq<Key>, agg: map<Pair, real>)
    ensures Candidates(k1, keys2, agg) == [] <==> !HasCandidate(k1, keys2, agg)
  {
    if HasCandidate(k1, keys2, agg) {
      var k2 :| k2 in keys2 && (k1, k2) in agg;
      assert Candidate(k1, k2, agg[(k1, k2)]) in Candidates(k1, keys2, agg);
    }
  }

  lemma {:induction false} CandidatesSnoc(k1: Key, keys2: seq<Key>, k2: Key, agg: map<Pair, real>)
    ensures Candidates(k1, keys2 + [k2], agg)
         == Candidates(k1, keys2, agg) + (if (k1, k2) in agg then [Candidate(k1, k2, agg[(k1, k2)])] else [])
  {
    if keys2 != [] {
      assert (keys2 + [k2])[1..] == keys2[1..] + [k2];
      CandidatesSnoc(k1, keys2[1..], k2, agg);
    }
  }

  lemma {:induction false} CandidatesAgree(k1: Key, keys2: seq<Key>, m1: map<Pair, real>, m2: map<Pair, real>)
    requires forall k2 :: k2 in keys2 ==> ((k1, k2) in m1 <==> (k1, k2) in m2)
    requires forall k2 :: k2 in keys2 && (k1, k2) in m1 ==> m1[(k1, k2)] == m2[(k1, k2)]
    ensures Candidates(k1, keys2, m1) == Candidates(k1, keys2, m2)
  {
    if keys2 != [] {
      CandidatesAgree(k1, keys2[1..], m1, m2);
    }
  }

  lemma {:induction false} CandidatesDistinct(k1: Key, keys2: seq<Key>, agg: map<Pair, real>)
    requires Distinct(keys2)
    ensures Distinct(Candidates(k1, keys2, agg))
  {
    if keys2 != [] {
      CandidatesDistinct(k1, keys2[1..], agg);
      var rest := Candidates(k1, keys2[1..], agg);
      assert forall x :: x in rest ==> x.k2 != keys2[0];
    }
  }

  /** The best candidate scores highest among the key's surviving pairs, and
      every pair before it in `keys2` order scores strictly less. */
  ghost predicate EarliestBest(k1: Key, j: int, keys2: seq<Key>, agg: map<Pair, real>) {
    && 0 <= j < |keys2| && (k1, keys2[j]) in agg
    && (forall i :: 0 <= i < |keys2| && (k1, keys2[i]) in agg ==> agg[(k1, keys2[i])] <= agg[(k1, keys2[j])])
    && (forall i :: 0 <= i < j && (k1, keys2[i]) in agg ==> agg[(k1, keys2[i])] < agg[(k1, keys2[j])])
  }

  lemma EarliestBestShift(k1: Key, j: int, keys2: seq<Key>, agg: map<Pair, real>)
    requires keys2 != [] && EarliestBest(k1, j, keys2[1..], agg)
    requires (k1, keys2[0]) in agg ==> agg[(k1, keys2[0])] < agg[(k1, keys2[j + 1])]
    ensures EarliestBest(k1, j + 1, keys2, agg)
  {
    forall i | 0 < i < |keys2| ensures keys2[i] == keys2[1..][i - 1] {}
  }

  lemma {:induction false} FirstMaxOfCandidates(k1: Key, keys2: seq<Key>, agg: map<Pair, real>)
    requires Candidates(k1, keys2, agg) != []
    ensures exists j ::
      EarliestBest(k1, j, keys2, agg) && FirstMax(Candidates(k1, keys2, agg)) == Candidate(k1, keys2[j], agg[(k1, keys2[j])])
  {
    var c := Candidates(k1, keys2, agg);
    var rest := Candidates(k1, keys2[1..], agg);
    if (k1, keys2[0]) !in agg {
      assert c == rest;
      FirstMaxOfCandidates(k1, keys2[1..], agg);
      var j :| EarliestBest(k1, j, keys2[1..], agg)
        && FirstMax(rest) == Candidate(k1, keys2[1..][j], agg[(k1, keys2[1..][j])]);
      EarliestBestShift(k1, j, keys2, agg);
    } else {
      var x := Candidate(k1, keys2[0], agg[(k1, keys2[0])]);
      assert c == [x] + rest;
      if rest == [] {
        CandidatesEmpty(k1, keys2[1..], agg);
        forall i | 0 < i < |keys2| ensures (k1, keys2[i]) !in agg {
          assert keys2[i] in keys2[1..];
        }
        assert EarliestBest(k1, 0, keys2, agg);
      } else {
        assert c[1..] == rest;
        FirstMaxOfCandidates(k1, keys2[1..], agg);
        var j :| EarliestBest(k1, j, keys2[1..], agg)
          && FirstMax(rest) == Candidate(k1, keys2[1..][j], agg[(k1, keys2[1..][j])]);
        if x.score >= FirstMax(rest).score {
          forall i | 0 < i < |keys2| && (k1, keys2[i]) in agg ensures agg[(k1, keys2[i])] <= x.score {
            assert keys2[i] == keys2[1..][i - 1];
          }
          assert EarliestBest(k1, 0, keys2, agg);
        } else {
          EarliestBestShift(k1, j, keys2, agg);
        }
      }
    }
  }

  /** The match chosen for `k1`: the head of its sorted candidates, if any. */
  function Best(k1: Key, keys2: seq<Key>, agg: map<Pair, real>): Option<Pair> {
    var c := Candidates(k1, keys2, agg);
    if c == [] then None else SortDescendingSorts(c); Some(PairOf(SortDescending(c)[0]))
  }

  /** A key gets a match exactly when it has a surviving pair, and the match is one of its pairs. */
  lemma BestExists(k1: Key, keys2: seq<Key>, agg: map<Pair, real>)
    ensures Best(k1, keys2, agg).Some? <==> HasCandidate(k1, keys2, agg)
    ensures Best(k1, keys2, agg).Some? ==>
      Best(k1, keys2, agg).value.0 == k1 && Best(k1, keys2, agg).value.1 in keys2 && Best(k1, keys2, agg).value in agg
  {
    CandidatesEmpty(k1, keys2, agg);
    var c := Candidates(k1, keys2, agg);
    if c != [] {
      var sorted := SortDescending(c);
      SortDescendingSorts(c);
      assert sorted[0] in multiset(c);
    }
  }

  /** The match is the highest-scoring pair, the earliest in `keys2` order on a tie. */
  lemma BestChoice(k1: Key, keys2: seq<Key>, agg: map<Pair, real>)
    requires HasCandidate(k1, keys2, agg)
    ensures Best(k1, keys2, agg).Some?
    ensures exists j :: EarliestBest(k1, j, keys2, agg) && Best(k1, keys2, agg) == Some((k1, keys2[j]))
  {
    CandidatesEmpty(k1, keys2, agg);
    var c := Candidates(k1, keys2, agg);
    SortHead(c);
    FirstMaxOfCandidates(k1, keys2, agg);
  }

  /** Two score maps that agree on the pairs of `k1` give `k1` the same match. */
  lemma BestAgree(k1: Key, keys2: seq<Key>, m1: map<Pair, real>, m2: map<Pair, real>)
    requires forall k2 :: k2 in keys2 ==> ((k1, k2) in m1 <==> (k1, k2) in m2)
    requires forall k2 :: k2 in keys2 && (k1, k2) in m1 ==> m1[(k1, k2)] == m2[(k1, k2)]
    ensures Best(k1, keys2, m1) == Best(k1, keys2, m2)
  {
    CandidatesAgree(k1, keys2, m1, m2);
  }

  // ---------------------------------------------------------------------
  // The whole matching loop

  function AsSeq(o: Option<Pair>): seq<Pair> {
    if o.Some? then [o.value] else []
  }

  /** The matches, key of the first file by key: each one's best pair in the
      score map as it was before the loop. */
  function Choices(keys1: seq<Key>, keys2: seq<Key>, agg: map<Pair, real>): seq<Pair> {
    if keys1 == [] then []
    else Choices(keys1[..|keys1| - 1], keys2, agg) + AsSeq(Best(keys1[|keys1| - 1], keys2, agg))
  }

  /** The keys of `keys1` that have a surviving pair, in `keys1` order. */
  function Matched(keys1: seq<Key>, keys2: seq<Key>, agg: map<Pair, real>): seq<Key> {
    if keys1 == [] then []
    else Matched(keys1[..|keys1| - 1], keys2, agg)
         + (if HasCandidate(keys1[|keys1| - 1], keys2, agg) then [keys1[|keys1| - 1]] else [])
  }

  function Firsts(ps: seq<Pair>): seq<Key> {
    seq(|ps|, i requires 0 <= i < |ps| => ps[i].0)
  }

  lemma FirstsAppend(ps: seq<Pair>, o: Option<Pair>)
    ensures Firsts(ps + AsSeq(o)) == Firsts(ps) + (if o.Some? then [o.value.0] else [])
  {
  }

  lemma ChoicesSnoc(keys1: seq<Key>, k1: Key, keys2: seq<Key>, agg: map<Pair, real>)
    ensures Choices(keys1 + [k1], keys2, agg) == Choices(keys1, keys2, agg) + AsSeq(Best(k1, keys2, agg))
  {
    assert (keys1 + [k1])[..|keys1|] == keys1;
  }

  /** The matched first keys are exactly those with a surviving pair, in order. */
  lemma {:induction false} ChoicesFirsts(keys1: seq<Key>, keys2: seq<Key>, agg: map<Pair, real>)
    ensures Firsts(Choices(keys1, keys2, agg)) == Matched(keys1, keys2, agg)
  {
    if keys1 != [] {
      var init := keys1[..|keys1| - 1];
      var k1 := keys1[|keys1| - 1];
      ChoicesFirsts(init, keys2, agg);
      BestExists(k1, keys2, agg);
      FirstsAppend(Choices(init, keys2, agg), Best(k1, keys2, agg));
    }
  }

  /** Each key of the first file is matched at most once, and a key is matched
      exactly when it has a surviving pair. */
  lemma {:induction false} MatchedKeys(keys1: seq<Key>, keys2: seq<Key>, agg: map<Pair, real>)
    requires Distinct(keys1)
    ensures Distinct(Matched(keys1, keys2, agg))
    ensures forall k :: k in Matched(keys1, keys2, agg) <==> k in keys1 && HasCandidate(k, keys2, agg)
  {
    if keys1 != [] {
      var init := keys1[..|keys1| - 1];
      var k1 := keys1[|keys1| - 1];
      assert keys1 == init + [k1];
      MatchedKeys(init, keys2, agg);
      assert k1 !in init;
    }
  }

  /** Every match is a surviving pair of a key of the first file, chosen as its
      highest-scoring pair with the earliest second key on a tie. */
  lemma {:induction false} ChoicesSound(keys1: seq<Key>, keys2: seq<Key>, agg: map<Pair, real>)
    ensures forall m :: 0 <= m < |Choices(keys1, keys2, agg)| ==>
      var p := Choices(keys1, keys2, agg)[m];
      p.0 in keys1 && p in agg && exists j :: EarliestBest(p.0, j, keys2, agg) && p.1 == keys2[j]
  {
    if keys1 != [] {
      var init := keys1[..|keys1| - 1];
      var k1 := keys1[|keys1| - 1];
      ChoicesSound(init, keys2, agg);
      BestExists(k1, keys2, agg);
      if HasCandidate(k1, keys2, agg) {
        BestChoice(k1, keys2, agg);
      }
      forall k | k in init ensures k in keys1 {}
    }
  }

  /** Matched from a thresholded map, every match scores at least the threshold. */
  lemma MatchesMeetThreshold(keys1: seq<Key>, keys2: seq<Key>, agg: map<Pair, real>, threshold: real)
    ensures forall p :: p in Choices(keys1, keys2, Surviving(agg, threshold)) ==> p in agg && agg[p] >= threshold
  {
    ChoicesSound(keys1, keys2, Surviving(agg, threshold));
  }

  /** Raising the threshold never yields more matches. */
  lemma {:induction false} ThresholdMonotone(keys1: seq<Key>, keys2: seq<Key>, agg: map<Pair, real>, low: real, high: real)
    requires low <= high
    ensures |Choices(keys1, keys2, Surviving(agg, high))| <= |Choices(keys1, keys2, Surviving(agg, low))|
  {
    if keys1 != [] {
      var k1 := keys1[|keys1| - 1];
      ThresholdMonotone(keys1[..|keys1| - 1], keys2, agg, low, high);
      BestExists(k1, keys2, Surviving(agg, high));
      BestExists(k1, keys2, Surviving(agg, low));
      if HasCandidate(k1, keys2, Surviving(agg, high)) {
        var k2 :| k2 in keys2 && (k1, k2) in Surviving(agg, high);
        assert (k1, k2) in Surviving(agg, low);
      }
    }
  }

  /** Two keys of the first file can both be matched to the same key of the
      second: the loop deletes only the current key's pairs. */
  lemma SecondKeyMayRepeat()
    ensures Choices(["a", "b"], ["x"], map[("a", "x") := 0.8, ("b", "x") := 0.9]) == [("a", "x"), ("b", "x")]
  {
    var agg := map[("a", "x") := 0.8, ("b", "x") := 0.9];
    assert ["a", "b"][..1] == ["a"];
    assert ["a"][..0] == [];
    assert Candidates("a", ["x"], agg) == [Candidate("a", "x", 0.8)];
    assert Candidates("b", ["x"], agg) == [Candidate("b", "x", 0.9)];
  }

  // ---------------------------------------------------------------------
  // The loops

  /** The inner loop that gathers one key's surviving pairs. */
  method CollectCandidates(k1: Key, keys2: seq<Key>, agg: map<Pair, real>) returns (entries: seq<Candidate>)
    ensures entries == Candidates(k1, keys2, agg)
  {
    entries := [];
    for j := 0 to |keys2|
      invariant entries == Candidates(k1, keys2[..j], agg)
    {
      CandidatesSnoc(k1, keys2[..j], keys2[j], agg);
      assert keys2[..j + 1] == keys2[..j] + [keys2[j]];
      if (k1, keys2[j]) in agg {
        entries := entries + [Candidate(k1, keys2[j], agg[(k1, keys2[j])])];
      }
    }
    assert keys2[..|keys2|] == keys2;
  }

  function PairsOf(entries: seq<Candidate>): set<Pair> {
    set c | c in entries :: PairOf(c)
  }

  /** `for e in entries: del agg_sims[(e[0], e[1])]`; each deleted pair must be present. */
  method DeletePairs(m: map<Pair, real>, entries: seq<Candidate>) returns (r: map<Pair, real>)
    requires forall i :: 0 <= i < |entries| ==> PairOf(entries[i]) in m
    requires forall i, j :: 0 <= i < j < |entries| ==> PairOf(entries[i]) != PairOf(entries[j])
    ensures r == m - PairsOf(entries)
  {
    r := m;
    for t := 0 to |entries|
      invariant r == m - PairsOf(entries[..t])
      invariant forall i :: t <= i < |entries| ==> PairOf(entries[i]) in r
    {
      assert PairsOf(entries[..t + 1]) == PairsOf(entries[..t]) + {PairOf(entries[t])};
      r := r - {PairOf(entries[t])};
    }
    assert entries[..|entries|] == entries;
  }

  lemma TwoOccurrences<T>(s: seq<T>, i: int, j: int)
    requires 0 <= i < j < |s| && s[i] == s[j]
    ensures multiset(s)[s[i]] >= 2
  {
    assert s == s[..j] + s[j..];
    assert s[i] in s[..j];
    assert s[j] in s[j..];
  }

  lemma {:induction false} DistinctOnce<T>(s: seq<T>, x: T)
    requires Distinct(s)
    ensures multiset(s)[x] <= 1
  {
    if s != [] {
      assert s == [s[0]] + s[1..];
      DistinctOnce(s[1..], x);
      if s[0] == x {
        assert x !in s[1..];
      }
    }
  }

  lemma DistinctPermutation<T>(s: seq<T>, t: seq<T>)
    requires Distinct(s) && multiset(s) == multiset(t)
    ensures Distinct(t)
  {
    forall i, j | 0 <= i < j < |t| ensures t[i] != t[j] {
      if t[i] == t[j] {
        TwoOccurrences(t, i, j);
        DistinctOnce(s, t[i]);
      }
    }
  }

  lemma SortedPairsDistinct(k1: Key, keys2: seq<Key>, agg: map<Pair, real>)
    requires Distinct(keys2)
    ensures var sorted := SortDescending(Candidates(k1, keys2, agg));
      forall i, j :: 0 <= i < j < |sorted| ==> PairOf(sorted[i]) != PairOf(sorted[j])
  {
    var c := Candidates(k1, keys2, agg);
    var sorted := SortDescending(c);
    SortDescendingSorts(c);
    CandidatesDistinct(k1, keys2, agg);
    DistinctPermutation(c, sorted);
    forall i, j | 0 <= i < j < |sorted| ensures PairOf(sorted[i]) != PairOf(sorted[j]) {
      assert sorted[i] in multiset(c);
      assert sorted[j] in multiset(c);
    }
  }

  lemma SortedPresent(k1: Key, keys2: seq<Key>, agg: map<Pair, real>)
    ensures var sorted := SortDescending(Candidates(k1, keys2, agg));
      forall i :: 0 <= i < |sorted| ==> PairOf(sorted[i]) in agg
  {
    var sorted := SortDescending(Candidates(k1, keys2, agg));
    SortDescendingSorts(Candidates(k1, keys2, agg));
    forall i | 0 <= i < |sorted| ensures PairOf(sorted[i]) in agg {
      assert sorted[i] in multiset(Candidates(k1, keys2, agg));
    }
  }

  lemma SortedCovers(k1: Key, keys2: seq<Key>, agg: map<Pair, real>)
    ensures forall p :: p in PairsOf(SortDescending(Candidates(k1, keys2, agg))) <==>
      p in agg && p.0 == k1 && p.1 in keys2
  {
    var c := Candidates(k1, keys2, agg);
    var sorted := SortDescending(c);
    SortDescendingSorts(c);
    forall p ensures p in PairsOf(sorted) <==> p in agg && p.0 == k1 && p.1 in keys2 {
      if p in agg && p.0 == k1 && p.1 in keys2 {
        var x := Candidate(k1, p.1, agg[p]);
        assert x in c;
        assert x in multiset(sorted);
        assert PairOf(x) == p;
      }
      if p in PairsOf(sorted) {
        var x :| x in sorted && PairOf(x) == p;
        assert x in multiset(c);
      }
    }
  }

  /** One turn of the matching loop for `k1`: its match, if any, and the score
      map with exactly the pairs of `k1` deleted. */
  method MatchOne(k1: Key, keys2: seq<Key>, agg: map<Pair, real>) returns (chosen: Option<Pair>, rest: map<Pair, real>)
    requires Distinct(keys2)
    ensures chosen == Best(k1, keys2, agg)
    ensures forall p :: p in rest <==> p in agg && !(p.0 == k1 && p.1 in keys2)
    ensures forall p :: p in rest ==> rest[p] == agg[p]
  {
    var entries := CollectCandidates(k1, keys2, agg);
    SortedCovers(k1, keys2, agg);
    rest := agg;
    if |entries| > 0 {
      SortDescendingSorts(entries);
      entries := SortDescending(entries);
      assert entries == SortDescending(Candidates(k1, keys2, agg));
      chosen := Some((entries[0].k1, entries[0].k2));
      SortedPairsDistinct(k1, keys2, agg);
      SortedPresent(k1, keys2, agg);
      rest := DeletePairs(agg, entries);
    } else {
      chosen := None;
      assert PairsOf(SortDescending(entries)) == {};
    }
  }

  /** The matching loop. It returns the matches and what is left of the score
      map: the pairs of every visited key have been deleted and no other. */
  method MatchGreedily(keys1: seq<Key>, keys2: seq<Key>, agg: map<Pair, real>)
    returns (matches: seq<Pair>, rest: map<Pair, real>)
    requires Distinct(keys1) && Distinct(keys2)
    ensures matches == Choices(keys1, keys2, agg)
    ensures forall p :: p in rest <==> p in agg && !(p.0 in keys1 && p.1 in keys2)
    ensures forall p :: p in rest ==> rest[p] == agg[p]
  {
    rest := agg;
    matches := [];
    for i := 0 to |keys1|
      invariant matches == Choices(keys1[..i], keys2, agg)
      invariant forall p :: p in rest <==> p in agg && !(p.0 in keys1[..i] && p.1 in keys2)
      invariant forall p :: p in rest ==> rest[p] == agg[p]
    {
      var k1 := keys1[i];
      assert keys1[..i + 1] == keys1[..i] + [k1];
      assert k1 !in keys1[..i];
      ChoicesSnoc(keys1[..i], k1, keys2, agg);
      BestAgree(k1, keys2, rest, agg);
      var chosen;
      chosen, rest := MatchOne(k1, keys2, rest);
      if chosen.Some? {
        matches := matches + [chosen.value];
      }
    }
    assert keys1[..|keys1|] == keys1;
  }
}
