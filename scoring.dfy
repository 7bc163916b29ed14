/**
 * The scoring half of `process_similar_keys`: three similarity maps over all
 * key pairs (title, author last names, all field text), their weighted sum,
 * and the deletion of every pair that scores below the threshold.
 * The three similarity measures are foreign library calls and are taken as
 * function parameters.
 */
module Scoring {
  import opened Wrappers
  import opened Text
  import opened Bib

  const TitleWeight: real := 0.375
  const AuthorWeight: real := 0.375
  const FieldWeight: real := 0.25

  /** Pairs scoring strictly below this are discarded. */
  const Threshold: real := 0.7

  /** The foreign measures: the edit ratio on strings, the ratio on sequences
      of words, and the TF-IDF cosine of two texts. */
  datatype Measures = Measures(
    ratio: (string, string) -> real,
    seqratio: (seq<string>, seq<string>) -> real,
    cosine: (string, string) -> real)

  predicate InUnit(x: real) {
    0.0 <= x <= 1.0
  }

  /** What the measures are assumed to satisfy: every score lies in [0, 1]. */
  ghost predicate Bounded(m: Measures) {
    && (forall a, b :: InUnit(m.ratio(a, b)))
    && (forall a, b :: InUnit(m.seqratio(a, b)))
    && (forall a, b :: InUnit(m.cosine(a, b)))
  }

  /** The weighted sum of the three signals. The weights add up to one, so the
      score stays in [0, 1] and three equal signals give that value back; and
      the field text alone cannot lift a pair over the threshold. */
  function AggregateScore(title: real, author: real, field: real): (s: real)
    ensures InUnit(title) && InUnit(author) && InUnit(field) ==> InUnit(s)
    ensures title == author && author == field ==> s == title
    ensures InUnit(field) && s >= Threshold ==> title + author >= 1.2
  {
    TitleWeight * title + AuthorWeight * author + FieldWeight * field
  }

  lemma WeightSanity()
    ensures AggregateScore(1.0, 1.0, 0.0) == 0.75 && AggregateScore(1.0, 1.0, 0.0) >= Threshold
    ensures AggregateScore(0.5, 0.5, 0.5) == 0.5 && AggregateScore(0.5, 0.5, 0.5) < Threshold
  {
  }

  // ---------------------------------------------------------------------
  // get_last_names

  /** The authors' last names, author after author. */
  function Flatten(authors: seq<Person>): seq<string> {
    if authors == [] then []
    else Flatten(authors[..|authors| - 1]) + authors[|authors| - 1].lastNames
  }

  function NameCount(authors: seq<Person>): nat {
    if authors == [] then 0
    else NameCount(authors[..|authors| - 1]) + |authors[|authors| - 1].lastNames|
  }

  lemma {:induction false} FlattenLength(authors: seq<Person>)
    ensures |Flatten(authors)| == NameCount(authors)
  {
    if authors != [] {
      FlattenLength(authors[..|authors| - 1]);
    }
  }

  lemma {:induction false} FlattenConcat(a: seq<Person>, b: seq<Person>)
    ensures Flatten(a + b) == Flatten(a) + Flatten(b)
    decreases |b|
  {
    if b == [] {
      assert a + b == a;
    } else {
      assert (a + b)[..|a + b| - 1] == a + b[..|b| - 1];
      FlattenConcat(a, b[..|b| - 1]);
    }
  }

  /** A name is in the flattened list exactly when some author carries it. */
  lemma {:induction false} FlattenMembers(authors: seq<Person>, name: string)
    ensures name in Flatten(authors) <==> exists i :: 0 <= i < |authors| && name in authors[i].lastNames
  {
    if authors != [] {
      var init := authors[..|authors| - 1];
      FlattenMembers(init, name);
      if exists i :: 0 <= i < |init| && name in init[i].lastNames {
        var i :| 0 <= i < |init| && name in init[i].lastNames;
        assert authors[i] == init[i];
      }
      if exists i :: 0 <= i < |authors| && name in authors[i].lastNames {
        var i :| 0 <= i < |authors| && name in authors[i].lastNames;
        if i < |init| {
          assert init[i] == authors[i];
        }
      }
    }
  }

  /** `get_last_names(entry)`; a missing author list raises. */
  method GetLastNames(e: Entry) returns (r: Result<seq<string>, Error>)
    ensures r.Failure? <==> !HasAuthors(e)
    ensures r.Failure? ==> r.error == MissingField("author")
    ensures r.Success? ==> r.value == Flatten(e.persons["author"])
  {
    if "author" !in e.persons {
      return Failure(MissingField("author"));
    }
    var authors := e.persons["author"];
    var names: seq<string> := [];
    for i := 0 to |authors|
      invariant names == Flatten(authors[..i])
    {
      assert authors[..i + 1][..i] == authors[..i];
      names := names + authors[i].lastNames;
    }
    assert authors[..|authors|] == authors;
    return Success(names);
  }

  // ---------------------------------------------------------------------
  // get_all_fields

  function FieldValues(fields: seq<(string, string)>): seq<string> {
    seq(|fields|, i requires 0 <= i < |fields| => fields[i].1)
  }

  /** `get_all_fields(entry)`: every field value followed by a space, with the
      last character then cut off. */
  method GetAllFields(e: Entry) returns (text: string)
    ensures text == Join(FieldValues(e.fields))
  {
    var texts := "";
    for i := 0 to |e.fields|
      invariant texts == if i == 0 then "" else Join(FieldValues(e.fields[..i])) + " "
    {
      assert FieldValues(e.fields[..i + 1]) == FieldValues(e.fields[..i]) + [e.fields[i].1];
      if i > 0 {
        JoinSnoc(FieldValues(e.fields[..i]), e.fields[i].1);
      }
      texts := texts + e.fields[i].1 + " ";
    }
    assert e.fields[..|e.fields|] == e.fields;
    text := if |texts| == 0 then texts else texts[..|texts| - 1];
  }

  // ---------------------------------------------------------------------
  // The per-pair scores

  function TitleScore(stopwords: set<string>, m: Measures, e1: Entry, e2: Entry): real
    requires HasTitle(e1) && HasTitle(e2)
  {
    m.ratio(CleanupText(stopwords, Title(e1)), CleanupText(stopwords, Title(e2)))
  }

  function AuthorScore(m: Measures, e1: Entry, e2: Entry): real
    requires HasAuthors(e1) && HasAuthors(e2)
  {
    m.seqratio(Flatten(e1.persons["author"]), Flatten(e2.persons["author"]))
  }

  function FieldScore(m: Measures, e1: Entry, e2: Entry): real {
    m.cosine(Join(FieldValues(e1.fields)), Join(FieldValues(e2.fields)))
  }

  predicate Scorable(e: Entry) {
    HasTitle(e) && HasAuthors(e)
  }

  function PairScore(stopwords: set<string>, m: Measures, e1: Entry, e2: Entry): real
    requires Scorable(e1) && Scorable(e2)
  {
    AggregateScore(TitleScore(stopwords, m, e1, e2), AuthorScore(m, e1, e2), FieldScore(m, e1, e2))
  }

  /** The title loop raises when an entry of the first file has no title, or,
      once the first file has an entry at all, when one of the second has none. */
  predicate TitleStepFails(f1: BibFile, f2: BibFile)
    requires WellFormed(f1) && WellFormed(f2)
  {
    !AllTitled(f1) || (f1.keys != [] && !AllTitled(f2))
  }

  /** The same condition for the author lists, checked after the titles. */
  predicate AuthorStepFails(f1: BibFile, f2: BibFile)
    requires WellFormed(f1) && WellFormed(f2)
  {
    !AllAuthored(f1) || (f1.keys != [] && !AllAuthored(f2))
  }

  /** The aggregate similarity of every pair, before thresholding. */
  function AggregateMap(stopwords: set<string>, m: Measures, f1: BibFile, f2: BibFile): map<Pair, real>
    requires WellFormed(f1) && WellFormed(f2)
    requires !TitleStepFails(f1, f2) && !AuthorStepFails(f1, f2)
  {
    map p | p in Cross(f1.keys, f2.keys) :: PairScore(stopwords, m, f1.entries[p.0], f2.entries[p.1])
  }

  /** With measures into [0, 1], every aggregate score lies in [0, 1]. */
  lemma AggregateMapBounded(stopwords: set<string>, m: Measures, f1: BibFile, f2: BibFile)
    requires WellFormed(f1) && WellFormed(f2)
    requires !TitleStepFails(f1, f2) && !AuthorStepFails(f1, f2)
    requires Bounded(m)
    ensures forall p :: p in AggregateMap(stopwords, m, f1, f2) ==> InUnit(AggregateMap(stopwords, m, f1, f2)[p])
  {
  }

  // ---------------------------------------------------------------------
  // The nested loops that fill the similarity maps

  /** The inner title loop for `k1`: adds the ratio of `title1` with every
      title of the second file, or fails at the first entry without one. */
  method ScoreTitleRow(stopwords: set<string>, m: Measures, keys2: seq<Key>, entries2: map<Key, Entry>,
                       k1: Key, title1: string, sims: map<Pair, real>) returns (r: Result<map<Pair, real>, Error>)
    requires forall k :: k in keys2 ==> k in entries2
    requires forall p :: p in sims ==> p.0 != k1
    ensures r.Failure? <==> exists k :: k in keys2 && !HasTitle(entries2[k])
    ensures r.Failure? ==> r.error == MissingField("title")
    ensures r.Success? ==> forall p :: p in r.value <==> p in sims || (p.0 == k1 && p.1 in keys2)
    ensures r.Success? ==> forall p :: p in sims ==> r.value[p] == sims[p]
    ensures r.Success? ==> forall k2 :: k2 in keys2 ==>
      HasTitle(entries2[k2])
      && r.value[(k1, k2)] == m.ratio(CleanupText(stopwords, title1), CleanupText(stopwords, Title(entries2[k2])))
  {
    var row := sims;
    for j := 0 to |keys2|
      invariant forall k :: k in keys2[..j] ==> HasTitle(entries2[k])
      invariant forall p :: p in row <==> p in sims || (p.0 == k1 && p.1 in keys2[..j])
      invariant forall p :: p in sims ==> row[p] == sims[p]
      invariant forall k2 :: k2 in keys2[..j] ==>
        HasTitle(entries2[k2])
        && row[(k1, k2)] == m.ratio(CleanupText(stopwords, title1), CleanupText(stopwords, Title(entries2[k2])))
    {
      var k2 := keys2[j];
      var title2 := FieldValue(entries2[k2].fields, "title");
      if title2.None? {
        assert !HasTitle(entries2[k2]);
        return Failure(MissingField("title"));
      }
      row := row[(k1, k2) := m.ratio(CleanupText(stopwords, title1), CleanupText(stopwords, title2.value))];
      assert keys2[..j + 1] == keys2[..j] + [k2];
    }
    assert keys2[..|keys2|] == keys2;
    return Success(row);
  }

  /** The title similarity of every pair (`title_sims`). */
  method ScoreTitles(stopwords: set<string>, m: Measures, f1: BibFile, f2: BibFile)
    returns (r: Result<map<Pair, real>, Error>)
    requires WellFormed(f1) && WellFormed(f2)
    ensures r.Failure? <==> TitleStepFails(f1, f2)
    ensures r.Failure? ==> r.error == MissingField("title")
    ensures r.Success? ==> forall p :: p in r.value <==> p in Cross(f1.keys, f2.keys)
    ensures r.Success? ==> forall p :: p in r.value ==>
      HasTitle(f1.entries[p.0]) && HasTitle(f2.entries[p.1])
      && r.value[p] == TitleScore(stopwords, m, f1.entries[p.0], f2.entries[p.1])
  {
    var sims: map<Pair, real> := map[];
    for i := 0 to |f1.keys|
      invariant forall k :: k in f1.keys[..i] ==> HasTitle(f1.entries[k])
      invariant i > 0 ==> AllTitled(f2)
      invariant forall p :: p in sims <==> p.0 in f1.keys[..i] && p.1 in f2.keys
      invariant forall p :: p in sims ==>
        HasTitle(f1.entries[p.0]) && HasTitle(f2.entries[p.1])
        && sims[p] == TitleScore(stopwords, m, f1.entries[p.0], f2.entries[p.1])
    {
      var k1 := f1.keys[i];
      var title1 := FieldValue(f1.entries[k1].fields, "title");
      if title1.None? {
        assert !HasTitle(f1.entries[k1]);
        return Failure(MissingField("title"));
      }
      assert k1 !in f1.keys[..i];
      var row := ScoreTitleRow(stopwords, m, f2.keys, f2.entries, k1, title1.value, sims);
      if row.Failure? {
        return row;
      }
      assert f1.keys[..i + 1] == f1.keys[..i] + [k1];
      sims := row.value;
    }
    assert f1.keys[..|f1.keys|] == f1.keys;
    return Success(sims);
  }

  /** The inner author loop for `k1`: adds the sequence ratio of `names1` with
      the last names of every entry of the second file, or fails at the first
      entry without an author list. */
  method ScoreAuthorRow(m: Measures, keys2: seq<Key>, entries2: map<Key, Entry>, k1: Key, names1: seq<string>,
                        sims: map<Pair, real>) returns (r: Result<map<Pair, real>, Error>)
    requires forall k :: k in keys2 ==> k in entries2
    requires forall p :: p in sims ==> p.0 != k1
    ensures r.Failure? <==> exists k :: k in keys2 && !HasAuthors(entries2[k])
    ensures r.Failure? ==> r.error == MissingField("author")
    ensures r.Success? ==> forall p :: p in r.value <==> p in sims || (p.0 == k1 && p.1 in keys2)
    ensures r.Success? ==> forall p :: p in sims ==> r.value[p] == sims[p]
    ensures r.Success? ==> forall k2 :: k2 in keys2 ==>
      HasAuthors(entries2[k2])
      && r.value[(k1, k2)] == m.seqratio(names1, Flatten(entries2[k2].persons["author"]))
  {
    var row := sims;
    for j := 0 to |keys2|
      invariant forall k :: k in keys2[..j] ==> HasAuthors(entries2[k])
      invariant forall p :: p in row <==> p in sims || (p.0 == k1 && p.1 in keys2[..j])
      invariant forall p :: p in sims ==> row[p] == sims[p]
      invariant forall k2 :: k2 in keys2[..j] ==>
        HasAuthors(entries2[k2])
        && row[(k1, k2)] == m.seqratio(names1, Flatten(entries2[k2].persons["author"]))
    {
      var k2 := keys2[j];
      var names2 := GetLastNames(entries2[k2]);
      if names2.Failure? {
        return Failure(names2.error);
      }
      row := row[(k1, k2) := m.seqratio(names1, names2.value)];
      assert keys2[..j + 1] == keys2[..j] + [k2];
    }
    assert keys2[..|keys2|] == keys2;
    return Success(row);
  }

  /** The last-name similarity of every pair (`author_sims`). */
  method ScoreAuthors(m: Measures, f1: BibFile, f2: BibFile) returns (r: Result<map<Pair, real>, Error>)
    requires WellFormed(f1) && WellFormed(f2)
    ensures r.Failure? <==> AuthorStepFails(f1, f2)
    ensures r.Failure? ==> r.error == MissingField("author")
    ensures r.Success? ==> forall p :: p in r.value <==> p in Cross(f1.keys, f2.keys)
    ensures r.Success? ==> forall p :: p in r.value ==>
      HasAuthors(f1.entries[p.0]) && HasAuthors(f2.entries[p.1])
      && r.value[p] == AuthorScore(m, f1.entries[p.0], f2.entries[p.1])
  {
    var sims: map<Pair, real> := map[];
    for i := 0 to |f1.keys|
      invariant forall k :: k in f1.keys[..i] ==> HasAuthors(f1.entries[k])
      invariant i > 0 ==> AllAuthored(f2)
      invariant forall p :: p in sims <==> p.0 in f1.keys[..i] && p.1 in f2.keys
      invariant forall p :: p in sims ==>
        HasAuthors(f1.entries[p.0]) && HasAuthors(f2.entries[p.1])
        && sims[p] == AuthorScore(m, f1.entries[p.0], f2.entries[p.1])
    {
      var k1 := f1.keys[i];
      var names1 := GetLastNames(f1.entries[k1]);
      if names1.Failure? {
        return Failure(names1.error);
      }
      assert k1 !in f1.keys[..i];
      var row := ScoreAuthorRow(m, f2.keys, f2.entries, k1, names1.value, sims);
      if row.Failure? {
        return row;
      }
      assert f1.keys[..i + 1] == f1.keys[..i] + [k1];
      sims := row.value;
    }
    assert f1.keys[..|f1.keys|] == f1.keys;
    return Success(sims);
  }

  /** The field-text similarity of every pair (`bow_sims`). */
  method ScoreFields(m: Measures, f1: BibFile, f2: BibFile) returns (sims: map<Pair, real>)
    requires WellFormed(f1) && WellFormed(f2)
    ensures forall p :: p in sims <==> p in Cross(f1.keys, f2.keys)
    ensures forall p :: p in sims ==> sims[p] == FieldScore(m, f1.entries[p.0], f2.entries[p.1])
  {
    sims := map[];
    for i := 0 to |f1.keys|
      invariant forall p :: p in sims <==> p.0 in f1.keys[..i] && p.1 in f2.keys
      invariant forall p :: p in sims ==>
        p.0 in f1.entries && p.1 in f2.entries && sims[p] == FieldScore(m, f1.entries[p.0], f2.entries[p.1])
    {
      var k1 := f1.keys[i];
      var text1 := GetAllFields(f1.entries[k1]);
      for j := 0 to |f2.keys|
        invariant forall p :: p in sims <==>
          (p.0 in f1.keys[..i] && p.1 in f2.keys) || (p.0 == k1 && p.1 in f2.keys[..j])
        invariant forall p :: p in sims ==>
          p.0 in f1.entries && p.1 in f2.entries && sims[p] == FieldScore(m, f1.entries[p.0], f2.entries[p.1])
      {
        var k2 := f2.keys[j];
        var text2 := GetAllFields(f2.entries[k2]);
        sims := sims[(k1, k2) := m.cosine(text1, text2)];
        assert f2.keys[..j + 1] == f2.keys[..j] + [k2];
      }
      assert f2.keys[..|f2.keys|] == f2.keys;
      assert f1.keys[..i + 1] == f1.keys[..i] + [k1];
    }
    assert f1.keys[..|f1.keys|] == f1.keys;
  }

  /** The weighted sum of the three maps for every pair (`agg_sims`). */
  method Aggregate(keys1: seq<Key>, keys2: seq<Key>, titles: map<Pair, real>, authors: map<Pair, real>,
                   fields: map<Pair, real>) returns (agg: map<Pair, real>)
    requires forall p :: p in Cross(keys1, keys2) ==> p in titles && p in authors && p in fields
    ensures forall p :: p in agg <==> p in Cross(keys1, keys2)
    ensures forall p :: p in agg ==> agg[p] == AggregateScore(titles[p], authors[p], fields[p])
  {
    agg := map[];
    for i := 0 to |keys1|
      invariant forall p :: p in agg <==> p.0 in keys1[..i] && p.1 in keys2
      invariant forall p :: p in agg ==> p in Cross(keys1, keys2) && agg[p] == AggregateScore(titles[p], authors[p], fields[p])
    {
      var k1 := keys1[i];
      for j := 0 to |keys2|
        invariant forall p :: p in agg <==> (p.0 in keys1[..i] && p.1 in keys2) || (p.0 == k1 && p.1 in keys2[..j])
        invariant forall p :: p in agg ==> p in Cross(keys1, keys2) && agg[p] == AggregateScore(titles[p], authors[p], fields[p])
      {
        var k2 := keys2[j];
        assert (k1, k2) in Cross(keys1, keys2);
        agg := agg[(k1, k2) := TitleWeight * titles[(k1, k2)] + AuthorWeight * authors[(k1, k2)] + FieldWeight * fields[(k1, k2)]];
        assert keys2[..j + 1] == keys2[..j] + [k2];
      }
      assert keys2[..|keys2|] == keys2;
      assert keys1[..i + 1] == keys1[..i] + [k1];
    }
    assert keys1[..|keys1|] == keys1;
  }

  /** The four loops in sequence: the title step's error first, then the
      author step's, otherwise the aggregate score of every pair. */
  method ScoreAll(stopwords: set<string>, m: Measures, f1: BibFile, f2: BibFile)
    returns (r: Result<map<Pair, real>, Error>)
    requires WellFormed(f1) && WellFormed(f2)
    ensures r.Failure? <==> TitleStepFails(f1, f2) || AuthorStepFails(f1, f2)
    ensures r.Failure? ==> r.error == (if TitleStepFails(f1, f2) then MissingField("title") else MissingField("author"))
    ensures r.Success? ==> r.value == AggregateMap(stopwords, m, f1, f2)
  {
    var titles := ScoreTitles(stopwords, m, f1, f2);
    if titles.Failure? {
      return Failure(titles.error);
    }
    var authors := ScoreAuthors(m, f1, f2);
    if authors.Failure? {
      return Failure(authors.error);
    }
    var fields := ScoreFields(m, f1, f2);
    var agg := Aggregate(f1.keys, f2.keys, titles.value, authors.value, fields);
    forall p | p in agg ensures agg[p] == PairScore(stopwords, m, f1.entries[p.0], f2.entries[p.1]) {
      assert p in titles.value && p in authors.value;
    }
    AggregateMapOf(stopwords, m, f1, f2, agg);
    return Success(agg);
  }

  /** A map over all pairs holding each pair's aggregate score is `AggregateMap`. */
  lemma AggregateMapOf(stopwords: set<string>, m: Measures, f1: BibFile, f2: BibFile, agg: map<Pair, real>)
    requires WellFormed(f1) && WellFormed(f2)
    requires !TitleStepFails(f1, f2) && !AuthorStepFails(f1, f2)
    requires forall p :: p in agg <==> p in Cross(f1.keys, f2.keys)
    requires forall p :: p in agg ==> agg[p] == PairScore(stopwords, m, f1.entries[p.0], f2.entries[p.1])
    ensures agg == AggregateMap(stopwords, m, f1, f2)
  {
    var whole := AggregateMap(stopwords, m, f1, f2);
    forall p | p in whole ensures p in agg && agg[p] == whole[p] {
    }
    forall p | p in agg ensures p in whole {
    }
    MapsEqual(agg, whole);
  }

  lemma MapsEqual<K, V>(a: map<K, V>, b: map<K, V>)
    requires forall k :: k in b ==> k in a && a[k] == b[k]
    requires forall k :: k in a ==> k in b
    ensures a == b
  {
  }

  // ---------------------------------------------------------------------
  // The threshold

  /** The pairs of `m` scoring at least `threshold`, with their scores. */
  function Surviving(m: map<Pair, real>, threshold: real): map<Pair, real> {
    map p | p in m && m[p] >= threshold :: m[p]
  }

  /** The deletion loop over a snapshot of the keys: exactly the pairs scoring
      at least the threshold stay, with their scores unchanged. */
  method DropBelowThreshold(agg: map<Pair, real>) returns (kept: map<Pair, real>)
    ensures forall p :: p in kept <==> p in agg && agg[p] >= Threshold
    ensures forall p :: p in kept ==> kept[p] == agg[p]
    ensures kept == Surviving(agg, Threshold)
  {
    kept := agg;
    var pending := agg.Keys;
    while pending != {}
      invariant pending <= agg.Keys
      invariant forall p :: p in kept <==> p in agg && (p in pending || agg[p] >= Threshold)
      invariant forall p :: p in kept ==> kept[p] == agg[p]
      decreases pending
    {
      var key :| key in pending;
      if kept[key] < Threshold {
        kept := kept - {key};
      }
      pending := pending - {key};
    }
  }

  /** A score of exactly the threshold survives. */
  lemma ThresholdInclusive(agg: map<Pair, real>, p: Pair)
    requires p in agg && agg[p] == Threshold
    ensures p in Surviving(agg, Threshold)
  {
  }
}
