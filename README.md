# bibtex-merge: a verified model of the matching core

`merge_bibtex.py` merges two BibTeX files. It runs in one of two modes:

- **Exact-key mode** pairs the entries whose keys occur in both files.
- **Similarity mode** scores every pair of entries from three signals:
  - a Levenshtein ratio of the normalised titles;
  - a sequence ratio of the authors' last names;
  - a TF-IDF cosine of all field values.

  Similarity mode then works in three steps:
  - It combines the three signals as `0.375*title + 0.375*author + 0.25*fields`.
  - It deletes every pair that scores below 0.7.
  - It matches each entry of the first file greedily to its best surviving pair.

Either way the result is written as numbered groups. Each group holds the preferred file's entry as it is, followed by the other file's entry commented out.

This project models that core in Dafny and proves what the code promises about it.

## Modules

| file | module | contents |
|---|---|---|
| `wrappers.dfy` | `Wrappers` | `Option` and `Result` |
| `text.dfy` | `Text` | `cleanup_text`, modelled on Python's own character classes |
| `bib.dfy` | `Bib` | the parsed files and a failing `fields['title']` lookup |
| `scoring.dfy` | `Scoring` | the helpers, score loops, weighted sum and threshold; details below |
| `matching.dfy` | `Matching` | the greedy matcher; details below |
| `output.dfy` | `Output` | `str.strip`, the comment-out transform, the group numbers and the serializer |
| `exact.dfy` | `ExactMatch` | `process_identical_keys` |
| `merge.dfy` | `MergeBibtex` | `process_similar_keys`, and the choice between the two modes |

Details for `text.dfy`:
- It uses Python's whitespace set (`str.isspace`).
- It uses `string.punctuation`.
- It models `lower()` on ASCII and Latin-1.

Details for `scoring.dfy`:
- The helpers are `get_last_names` and `get_all_fields`.
- The score loops are the three nested loops for titles, authors and fields.

Details for `matching.dfy`:
- Candidates are collected per first key.
- A stable descending sort is modelled as an insertion sort. The proofs show it is a permutation, descending and stable.
- The head of the sorted candidates is the match.
- Only the current key's pairs are deleted.

## How the model is built

- **Loops become methods.** Each loop of the source is a `method` with a loop, proved against a specification function:
  - `GetLastNames` against `Flatten`;
  - `GetAllFields` against `Join`;
  - the nested loops against `Cross` and the per-pair scores;
  - `DropBelowThreshold` against `Surviving`;
  - `MatchGreedily` against `Choices`;
  - `SerializeEntries` against `Document`.
- **Expressions become functions.** The pure expressions are functions with lemmas: `cleanup_text`, the comment-out expression on line 109, `str.strip` and `str.replace`.
- **The similarity measures are abstract.**
  - **What they are modelled as:** the function-valued fields of `Scoring.Measures`.
  - **What is assumed of them:** `Scoring.Bounded` assumes only that they map into [0, 1].
  - **Scores:** exact reals.
  - **What is external:** the stopword list is a parameter, and so is the bibtex text of an entry (`render`).
- **Errors become results.** A missing `title` field or `author` list raises `KeyError` in the source. Here it is a `Failure(MissingField(..))`.
  - The title loop runs first, so its error wins.
  - Entries of the second file are only looked at once the first file has an entry.
- **Unordered iteration is arbitrary.** Two loops visit their elements in an order the model leaves open:
  - `process_identical_keys` iterates over a Python set, whose order is unspecified.
  - The threshold filter visits the keys in insertion order, which the model does not fix.

  These loops choose their next element with `:|`, so their contracts hold for every order.

## Matching is not one-to-one on the second file

- A one-to-one matcher would also delete every pair of the chosen second key once it is taken.
- merge_bibtex.py:239-240 delete only the pairs of the current first key. A later entry of the first file can therefore be matched to a key of the second file that is already taken.
- The model does what the code does. `Matching.SecondKeyMayRepeat` computes such a case.
- What is proved is that each key of the *first* file is matched at most once.

## Model

| member | source | states |
|---|---|---|
| Text.CleanupCharacters | merge_bibtex.py:150-158 | the normalised text contains no `string.punctuation` character, no `\n` or `\r` and no upper-case letter, and its only whitespace character is the plain space |
| Text.CleanupTokens | merge_bibtex.py:153-158 | splitting the normalised text gives the input's tokens that survive, lower-cased, in their original order; joining them with single spaces gives the text back; no token's lower case is a stopword |
| Text.CleanupIdempotent | merge_bibtex.py:142-158 | normalising already normalised text changes nothing |
| Text.SplitJoin | merge_bibtex.py:156 | `split()` undoes `' '.join` on whitespace-free non-empty tokens |
| Text.SplitTokens | merge_bibtex.py:156 | every word `split()` produces is non-empty and free of whitespace |
| Text.KeptTokensMembers | merge_bibtex.py:156-158 | a word is in the output exactly when it is not a stopword and is the lower case of some input token |
| Text.KeptTokensClean | merge_bibtex.py:156-158 | no kept token is a stopword, and each one is already in lower case |
| Text.LowerCharSpec | merge_bibtex.py:158 | the lower-cased character is never upper case; a character that is not upper case is unchanged; whitespace and punctuation are preserved |
| Bib.FieldValueFound | merge_bibtex.py:180 | the field lookup succeeds exactly when a field has that name, and it returns the value of the first such field |
| Scoring.AggregateScore | merge_bibtex.py:220-222 | the weighted sum lies in [0, 1] when its three inputs do; it returns the common value when the three inputs are equal; with a field score in [0, 1], reaching 0.7 needs title plus author of at least 1.2 |
| Scoring.WeightSanity | merge_bibtex.py:220-222 | a pair with identical title and authors but no common field text scores 0.75 and survives; three signals of 0.5 give 0.5, below the threshold |
| Scoring.AggregateMapBounded | merge_bibtex.py:217-222 | with measures into [0, 1], every aggregate score lies in [0, 1] |
| Scoring.FlattenLength | merge_bibtex.py:186-191 | the number of last names is the sum of the authors' last-name counts |
| Scoring.FlattenConcat | merge_bibtex.py:186-191 | flattening distributes over concatenation of author lists |
| Scoring.FlattenMembers | merge_bibtex.py:186-191 | a name is among the last names exactly when some author has it |
| Scoring.GetLastNames | merge_bibtex.py:186-191 | fails with the author error exactly when the entry has no author list; otherwise returns every author's last names, in order |
| Scoring.GetAllFields | merge_bibtex.py:201-205 | returns the field values joined by single spaces (the empty string when there are none) |
| Scoring.ScoreTitleRow | merge_bibtex.py:181-183 | the inner title loop fails with the title error exactly when an entry of the second file lacks a title; otherwise it adds every pair of `k1` with the ratio of the two normalised titles and keeps the earlier scores |
| Scoring.ScoreTitles | merge_bibtex.py:178-183 | fails with the title error exactly when an entry of the first file lacks a title, or the first file is non-empty and an entry of the second lacks one; otherwise maps every pair to the ratio of the two normalised titles |
| Scoring.ScoreAuthorRow | merge_bibtex.py:196-198 | the inner author loop fails with the author error exactly when an entry of the second file has no author list; otherwise it adds every pair of `k1` with the sequence ratio of the two last-name lists and keeps the earlier scores |
| Scoring.ScoreAuthors | merge_bibtex.py:193-198 | the same for author lists: fails exactly when a needed author list is missing; otherwise maps every pair to the sequence ratio of the two last-name lists |
| Scoring.ScoreFields | merge_bibtex.py:207-214 | maps every pair to the cosine score of the two joined field texts |
| Scoring.Aggregate | merge_bibtex.py:217-222 | maps every pair, and only those, to `0.375*title + 0.375*author + 0.25*fields` |
| Scoring.ScoreAll | merge_bibtex.py:177-222 | the title error takes precedence over the author error; without an error the result is the aggregate score of every pair |
| Scoring.AggregateMapOf | merge_bibtex.py:217-222 | a map over exactly the pairs, holding each pair's weighted score, is the aggregate map |
| Scoring.DropBelowThreshold | merge_bibtex.py:225-227 | exactly the pairs scoring at least 0.7 stay, with their scores unchanged, whatever the visiting order |
| Scoring.ThresholdInclusive | merge_bibtex.py:226 | a score of exactly 0.7 survives |
| Matching.SortDescendingSorts | merge_bibtex.py:237 | the sorted candidates are a permutation of the input, in descending score order |
| Matching.InsertPermutes | merge_bibtex.py:237 | inserting one candidate adds exactly that candidate to the multiset of candidates |
| Matching.SortStable | merge_bibtex.py:237 | the candidates of any one score keep their relative order |
| Matching.SortHead | merge_bibtex.py:237-238 | the head of the sorted list is the first candidate of highest score |
| Matching.Candidates | merge_bibtex.py:232-235 | the candidates of a key are exactly its surviving pairs, with their scores |
| Matching.CandidatesEmpty | merge_bibtex.py:236 | a key has no candidates exactly when it has no surviving pair |
| Matching.CollectCandidates | merge_bibtex.py:232-235 | the inner loop collects the key's candidates in the second file's key order |
| Matching.BestExists | merge_bibtex.py:236-238 | a key gets a match exactly when it has a surviving pair, and the match is one of its pairs |
| Matching.BestChoice | merge_bibtex.py:237-238 | the chosen second key scores highest among the key's surviving pairs, and every second key earlier in order scores strictly less |
| Matching.ChoicesFirsts | merge_bibtex.py:230-238 | the first keys of the matches are, in the first file's order, exactly the keys that have a surviving pair |
| Matching.MatchedKeys | merge_bibtex.py:230-238 | each key of the first file appears in at most one match, and appears exactly when it has a surviving pair |
| Matching.ChoicesSound | merge_bibtex.py:230-238 | every match is a surviving pair of a key of the first file, of highest score and earliest on a tie |
| Matching.MatchesMeetThreshold | merge_bibtex.py:225-238 | every match from the thresholded map scores at least the threshold |
| Matching.ThresholdMonotone | merge_bibtex.py:225-238 | a higher threshold never gives more matches |
| Matching.SecondKeyMayRepeat | merge_bibtex.py:239-240 | two keys of the first file can both be matched to the same key of the second file |
| Matching.DeletePairs | merge_bibtex.py:239-240 | the deletion loop removes exactly the listed pairs |
| Matching.MatchOne | merge_bibtex.py:232-240 | one turn of the loop chooses the key's best pair and deletes exactly that key's pairs, leaving the other scores unchanged |
| Matching.MatchGreedily | merge_bibtex.py:230-240 | the loop's matches are each key's best pair in the original map, in order; afterwards exactly the pairs of keys not visited remain |
| Output.StripInfix | merge_bibtex.py:109 | `strip()` returns a slice of its input with only whitespace cut off around it, and the result neither starts nor ends with whitespace |
| Output.StripIdempotent | merge_bibtex.py:109 | stripping twice equals stripping once |
| Output.PrefixLinesRoundTrip | merge_bibtex.py:109 | `replace('\n', '\n%')` can be undone |
| Output.PrefixLinesMarks | merge_bibtex.py:109 | after the replacement every line break is followed by `%` |
| Output.CommentOutLines | merge_bibtex.py:107-109 | the commented entry starts with `%`, every line break inside it is followed by `%`, and it ends with a blank line |
| Output.CommentOutRecovers | merge_bibtex.py:107-109 | the stripped entry text, without its first character, can be read back from the comment |
| Output.NatToStringDigits | merge_bibtex.py:104 | a group number is written as a non-empty string of decimal digits, with a leading `0` only for group 0 |
| Output.NatToStringRoundTrip | merge_bibtex.py:104 | a group number's decimal text reads back as the number |
| Output.NatToStringInjective | merge_bibtex.py:104 | different groups get different numbers |
| Output.DocumentLayout | merge_bibtex.py:92-110 | after the four header lines, group `i` holds the entry of the second file when `prefer_second` is set and of the first file otherwise, and the other entry commented out |
| Output.DocumentEntries | merge_bibtex.py:92-110 | for one group `i`: the chunk after its START line is the preferred entry, and the chunk after the blank line is the other entry commented out |
| Output.DocumentNumbering | merge_bibtex.py:104-111 | group `i` starts with its numbered START line and ends with its matching END line |
| Output.SerializeEntries | merge_bibtex.py:85-111 | a dry run writes nothing; otherwise the file is the header followed by one group per pair, in order |
| ExactMatch.IdenticalKeyPairs | merge_bibtex.py:129-136 | the pairs are exactly `(k, k)` for the keys common to both files, each once, whatever the set's iteration order |
| ExactMatch.TestFilesShareThreeKeys | test/test_merge_bibtex.py:20 | for the smallest key lists consistent with both tests (lines 32 and 39), the exact-key pairing yields exactly `jame76`, `colu92` and `gree00`, each paired with itself, once |
| ExactMatch.ProcessIdenticalKeys | merge_bibtex.py:128-139 | the common keys are matched to themselves; nothing is written when there are none or on a dry run; otherwise the file holds one group per common key |
| MergeBibtex.MatchesPresent | merge_bibtex.py:238-242 | every match names an entry of both files, so the serializer's lookups succeed |
| MergeBibtex.ProcessSimilarKeys | merge_bibtex.py:161-242 | fails with the title error, and otherwise the author error, exactly when a needed field is missing; otherwise the matches are the greedy choices on the scores that reach 0.7, and the file holds the header plus one group per match |
| MergeBibtex.Merge | merge_bibtex.py:257-261 | exact-key mode never fails, matches the common keys to themselves and writes exactly when there is a common key and it is no dry run; similarity mode fails exactly as `ProcessSimilarKeys` does, with the title error first, returns its matches and writes exactly when it is no dry run; whatever is written is the document of the matches |

## Left out

- **Argument parsing** (merge_bibtex.py:14-41) is command-line plumbing.
- **File checks and parsing** (merge_bibtex.py:57-69) check that the files exist and parse them with pybtex. They are I/O. The model starts from parsed files, given as `Bib.BibFile` values.
- **Output side effects** are I/O: opening, writing and closing the output file, and every `print`. The file is modelled as the sequence of chunks that would be written.
- **Foreign code** is abstract:
  - `nltk.download` and the English stopword corpus (merge_bibtex.py:156, 260): the stopword set is a parameter.
  - `Levenshtein.ratio` and `seqratio` (merge_bibtex.py:183, 198): only assumed to map into [0, 1].
  - The TF-IDF cosine (merge_bibtex.py:208-214): only assumed to map into [0, 1]. Not modelled is the "empty vocabulary" `ValueError` sklearn raises when the two texts together hold no token of two or more word characters outside the English stopword list (for example texts of stopwords, punctuation or single letters only).
- **Float rounding.** Scores are exact reals, so the IEEE rounding of the weighted sum is not modelled. With floats, a sum that is mathematically 0.7 can round to just below it.
- **pybtex `to_string`** is the opaque `render` function of the entry, so the entry keys inside the written text are not modelled.
- **Matching guarantees not given.** The matching is not one-to-one on the second file's keys and not globally optimal, because the code guarantees neither.
- **test/resources/*.bib is not part of this model.** The similarity test's outcome depends on the concrete measures, which are abstract here.
- ExactMatch.TestFilesShareThreeKeys: uses the smallest key lists consistent with both tests, the five keys each file must hold by test/test_merge_bibtex.py:32 and :39. Unmatched entries are never written, so the real files may hold more keys; nothing is stated about such files.
- Bib.FieldValue: looks field names up case-sensitively. pybtex's field dictionary is case-insensitive, and the model does not enforce that field names are distinct.
- Bib.HasAuthors: looks the `author` role up case-sensitively. pybtex's person dictionary is case-insensitive, so an entry whose role is stored as `Author` fails the author loop in the model but not in the source (merge_bibtex.py:187).
- Text.LowerChar: maps only ASCII and Latin-1 capitals. Other Unicode case mappings of `str.lower` are not modelled.
- Matching.SortDescending: sorts a value, not the list in place. Timsort is replaced by an insertion sort with the same stable order.
- Output.SerializeEntries: requires every pair to name entries of both files. When a key is missing, the source would raise partway through writing. Both callers only pass present keys, as `ExactMatch.ProcessIdenticalKeys` and `MergeBibtex.MatchesPresent` prove.
