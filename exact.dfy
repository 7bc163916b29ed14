/**
 * `process_identical_keys`: the keys that occur in both files, each paired
 * with itself and handed to the serializer. The pairs come out of a Python
 * set, whose iteration order is unspecified; the loop below picks the next
 * key arbitrarily, so its contract holds for every order.
 */
module ExactMatch {
  import opened Wrappers
  import opened Bib
  import opened Output

  /** `set(keys1).intersection(set(keys2))`. */
  function SharedKeys(keys1: seq<Key>, keys2: seq<Key>): set<Key> {
    set k | k in keys1 && k in keys2
  }

  /** `[(k, k) for k in shared]`, in whatever order the set is visited. */
  method IdenticalKeyPairs(keys1: seq<Key>, keys2: seq<Key>) returns (pairs: seq<Pair>)
    ensures forall p :: p in pairs <==> p.0 == p.1 && p.0 in keys1 && p.0 in keys2
    ensures Distinct(pairs)
    ensures |pairs| == |SharedKeys(keys1, keys2)|
  {
    var shared := set k | k in keys1 && k in keys2;
    var pending := shared;
    pairs := [];
    while pending != {}
      invariant pending <= shared
      invariant forall p :: p in pairs <==> p.0 == p.1 && p.0 in shared && p.0 !in pending
      invariant Distinct(pairs)
      invariant |pairs| + |pending| == |shared|
      decreases |pending|
    {
      var k :| k in pending;
      assert (k, k) !in pairs;
      pairs := pairs + [(k, k)];
      pending := pending - {k};
    }
  }

  /** The smallest key lists consistent with the repository's tests: each
      file holds the five keys that the similarity test expects in the output
      for its `prefer_second` setting. */
  const TestKeys1: seq<Key> := ["jame76", "colu92", "gree00", "smit54", "phil99"]
  const TestKeys2: seq<Key> := ["jame76", "colu92", "gree00", "smit55", "phil98"]

  lemma TestKeysShared()
    ensures SharedKeys(TestKeys1, TestKeys2) == {"jame76", "colu92", "gree00"}
  {
    assert "smit54" !in TestKeys2 && "phil99" !in TestKeys2;
    assert TestKeys1[0] in TestKeys2 && TestKeys1[1] in TestKeys2 && TestKeys1[2] in TestKeys2;
  }

  /** On those key lists the exact-key pairing yields the three keys the
      exact-key test expects, each paired with itself, once. */
  method TestFilesShareThreeKeys() returns (pairs: seq<Pair>)
    ensures |pairs| == 3
    ensures forall p :: p in pairs <==> p.0 == p.1 && p.0 in {"jame76", "colu92", "gree00"}
  {
    pairs := IdenticalKeyPairs(TestKeys1, TestKeys2);
    TestKeysShared();
    assert |SharedKeys(TestKeys1, TestKeys2)| == 3;
    forall p ensures p in pairs <==> p.0 == p.1 && p.0 in {"jame76", "colu92", "gree00"} {
      assert p.0 in TestKeys1 && p.0 in TestKeys2 <==> p.0 in SharedKeys(TestKeys1, TestKeys2);
    }
  }

  /** The exact-key pipeline: nothing is written when the files share no key
      or on a dry run; otherwise the shared keys are written as groups. */
  method ProcessIdenticalKeys(f1: BibFile, f2: BibFile, render: Entry -> string, preferSecond: bool, dryRun: bool)
    returns (pairs: seq<Pair>, out: Option<seq<string>>)
    requires WellFormed(f1) && WellFormed(f2)
    ensures forall p :: p in pairs <==> p.0 == p.1 && p.0 in f1.keys && p.0 in f2.keys
    ensures Distinct(pairs)
    ensures Present(pairs, f1, f2)
    ensures out.Some? <==> pairs != [] && !dryRun
    ensures out.Some? ==> out.value == Document(pairs, f1, f2, render, preferSecond)
  {
    pairs := IdenticalKeyPairs(f1.keys, f2.keys);
    assert forall i :: 0 <= i < |pairs| ==> pairs[i] in pairs;
    if |pairs| > 0 {
      out := SerializeEntries(pairs, f1, f2, render, preferSecond, dryRun);
    } else {
      out := None;
    }
  }
}
