/**
 * The parsed bibliography as the matcher sees it: each file is an ordered
 * mapping from entry key to entry, and each entry has its fields in their
 * order of appearance and its persons by role. Parsing itself is done by an
 * external library and is not modelled.
 */
module Bib {
  import opened Wrappers

  type Key = string

  /** A candidate or matched pair: a key of the first file and one of the second. */
  type Pair = (Key, Key)

  datatype Person = Person(lastNames: seq<string>)

  datatype Entry = Entry(fields: seq<(string, string)>, persons: map<string, seq<Person>>)

  /** `keys` is `list(entries.keys())`: the insertion order of the mapping. */
  datatype BibFile = BibFile(keys: seq<Key>, entries: map<Key, Entry>)

  /** The error a missing required field raises (Python's `KeyError`). */
  datatype Error = MissingField(name: string)

  predicate Distinct<T(==)>(s: seq<T>) {
    forall i, j :: 0 <= i < j < |s| ==> s[i] != s[j]
  }

  /** What a Python dictionary guarantees about its key list. */
  ghost predicate WellFormed(f: BibFile) {
    Distinct(f.keys) && forall k :: k in f.entries <==> k in f.keys
  }

  /** `entry.fields[name]`, or None where that raises. */
  function FieldValue(fields: seq<(string, string)>, name: string): (r: Option<string>)
  {
    if fields == [] then None
    else if fields[0].0 == name then Some(fields[0].1)
    else FieldValue(fields[1..], name)
  }

  /** The lookup finds a value exactly when some field carries the name, and
      the value it finds is that of the first such field. */
  lemma {:induction false} FieldValueFound(fields: seq<(string, string)>, name: string)
    ensures FieldValue(fields, name).Some? <==> exists i :: 0 <= i < |fields| && fields[i].0 == name
    ensures FieldValue(fields, name).Some? ==>
      exists i :: 0 <= i < |fields| && fields[i] == (name, FieldValue(fields, name).value)
        && forall j :: 0 <= j < i ==> fields[j].0 != name
  {
    if fields != [] && fields[0].0 != name {
      FieldValueFound(fields[1..], name);
      if exists i :: 0 <= i < |fields| && fields[i].0 == name {
        var i :| 0 <= i < |fields| && fields[i].0 == name;
        assert fields[1..][i - 1] == fields[i];
      }
      if FieldValue(fields, name).Some? {
        var i :| 0 <= i < |fields| - 1 && fields[1..][i] == (name, FieldValue(fields, name).value)
          && forall j :: 0 <= j < i ==> fields[1..][j].0 != name;
        assert fields[i + 1] == (name, FieldValue(fields, name).value);
        forall j | 0 <= j < i + 1 ensures fields[j].0 != name {
          if j > 0 {
            assert fields[j] == fields[1..][j - 1];
          }
        }
      }
    } else if fields != [] {
      assert fields[0] == (name, FieldValue(fields, name).value);
    }
  }

  predicate HasTitle(e: Entry) {
    FieldValue(e.fields, "title").Some?
  }

  function Title(e: Entry): string
    requires HasTitle(e)
  {
    FieldValue(e.fields, "title").value
  }

  predicate HasAuthors(e: Entry) {
    "author" in e.persons
  }

  predicate AllTitled(f: BibFile)
    requires WellFormed(f)
  {
    forall k :: k in f.keys ==> HasTitle(f.entries[k])
  }

  predicate AllAuthored(f: BibFile)
    requires WellFormed(f)
  {
    forall k :: k in f.keys ==> HasAuthors(f.entries[k])
  }

  /** Pairs of a key of `a` and a key of `b`: the pairs the nested loops visit. */
  function Cross(a: seq<Key>, b: seq<Key>): (r: set<Pair>)
    ensures forall p :: p in r <==> p.0 in a && p.1 in b
  {
    set x, y | x in a && y in b :: (x, y)
  }
}
