/**
 * The two pipelines of the script: `process_similar_keys`, which scores
 * every pair of entries, keeps the pairs scoring at least 0.7, matches each
 * entry of the first file greedily and serializes the matches; and the
 * choice between it and the exact-key pipeline. The file output is the
 * sequence of chunks written, or None when nothing is written.
 */
module MergeBibtex {
  import opened Wrappers
  import opened Bib
  import opened Scoring
  import opened Matching
  import opened Output
  import opened ExactMatch

  datatype Run = Run(matches: seq<Pair>, output: Option<seq<string>>)

  /** The matches of the similar-entry pipeline: each entry of the first file
      in order gets its best surviving pair, if it has one. */
  function SimilarMatches(stopwords: set<string>, m: Measures, f1: BibFile, f2: BibFile): seq<Pair>
    requires WellFormed(f1) && WellFormed(f2)
    requires !TitleStepFails(f1, f2) && !AuthorStepFails(f1, f2)
  {
    Choices(f1.keys, f2.keys, Surviving(AggregateMap(stopwords, m, f1, f2), Threshold))
  }

  /** Every match names an entry of each file, so the serializer's lookups succeed. */
  lemma MatchesPresent(stopwords: set<string>, m: Measures, f1: BibFile, f2: BibFile)
    requires WellFormed(f1) && WellFormed(f2)
    requires !TitleStepFails(f1, f2) && !AuthorStepFails(f1, f2)
    ensures Present(SimilarMatches(stopwords, m, f1, f2), f1, f2)
  {
    var matches := SimilarMatches(stopwords, m, f1, f2);
    ChoicesSound(f1.keys, f2.keys, Surviving(AggregateMap(stopwords, m, f1, f2), Threshold));
    forall i | 0 <= i < |matches| ensures matches[i].0 in f1.entries && matches[i].1 in f2.entries {
      var j :| EarliestBest(matches[i].0, j, f2.keys, Surviving(AggregateMap(stopwords, m, f1, f2), Threshold))
        && matches[i].1 == f2.keys[j];
    }
  }

  /** `process_similar_keys`. A missing title raises before a missing author
      list; otherwise the matches are the greedy choices on the thresholded
      scores and the file holds one group per match (only a header when there
      is none). */
  method ProcessSimilarKeys(stopwords: set<string>, m: Measures, f1: BibFile, f2: BibFile,
                            render: Entry -> string, preferSecond: bool, dryRun: bool)
    returns (r: Result<Run, Error>)
    requires WellFormed(f1) && WellFormed(f2)
    ensures r.Failure? <==> TitleStepFails(f1, f2) || AuthorStepFails(f1, f2)
    ensures r.Failure? ==> r.error == (if TitleStepFails(f1, f2) then MissingField("title") else MissingField("author"))
    ensures r.Success? ==> r.value.matches == SimilarMatches(stopwords, m, f1, f2)
    ensures r.Success? ==> Present(r.value.matches, f1, f2)
    ensures r.Success? ==> (r.value.output.None? <==> dryRun)
    ensures r.Success? && r.value.output.Some? ==>
      r.value.output.value == Document(r.value.matches, f1, f2, render, preferSecond)
  {
    var scores := ScoreAll(stopwords, m, f1, f2);
    if scores.Failure? {
      return Failure(scores.error);
    }
    var kept := DropBelowThreshold(scores.value);
    assert Distinct(f1.keys) && Distinct(f2.keys);
    var matches, _ := MatchGreedily(f1.keys, f2.keys, kept);
    MatchesPresent(stopwords, m, f1, f2);
    var out := SerializeEntries(matches, f1, f2, render, preferSecond, dryRun);
    return Success(Run(matches, out));
  }

  /** `merge_bibtex` after the files are parsed: the exact-key pipeline when
      only identical keys are wanted, the similar-entry pipeline otherwise. */
  method Merge(onlyIdentical: bool, stopwords: set<string>, m: Measures, f1: BibFile, f2: BibFile,
               render: Entry -> string, preferSecond: bool, dryRun: bool)
    returns (r: Result<Run, Error>)
    requires WellFormed(f1) && WellFormed(f2)
    ensures onlyIdentical ==> r.Success? && forall p :: p in r.value.matches <==> p.0 == p.1 && p.0 in SharedKeys(f1.keys, f2.keys)
    ensures onlyIdentical ==> r.Success? && (r.value.output.Some? <==> r.value.matches != [] && !dryRun)
    ensures !onlyIdentical ==> (r.Failure? <==> TitleStepFails(f1, f2) || AuthorStepFails(f1, f2))
    ensures !onlyIdentical && r.Failure? ==>
      r.error == (if TitleStepFails(f1, f2) then MissingField("title") else MissingField("author"))
    ensures !onlyIdentical && r.Success? ==> r.value.matches == SimilarMatches(stopwords, m, f1, f2)
    ensures !onlyIdentical && r.Success? ==> (r.value.output.None? <==> dryRun)
    ensures r.Success? ==> Present(r.value.matches, f1, f2)
    ensures r.Success? && r.value.output.Some? ==>
      !dryRun && r.value.output.value == Document(r.value.matches, f1, f2, render, preferSecond)
  {
    if onlyIdentical {
      var pairs, out := ProcessIdenticalKeys(f1, f2, render, preferSecond, dryRun);
      r := Success(Run(pairs, out));
    } else {
      r := ProcessSimilarKeys(stopwords, m, f1, f2, render, preferSecond, dryRun);
    }
  }
}
