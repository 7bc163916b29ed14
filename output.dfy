/**
 * What `serialize_bibtex_entries` writes: a header, then for each matched
 * pair a numbered group holding the preferred entry as it is and the other
 * entry turned into a comment. The file is modelled as the sequence of
 * chunks passed to `write`, and an entry's bibtex text is an opaque `render`
 * function of the entry.
 */
module Output {
  import opened Wrappers
  import opened Text
  import opened Bib

  // ---------------------------------------------------------------------
  // str.strip()

  function TrimStart(s: string): string {
    if s == [] || !IsSpace(s[0]) then s else TrimStart(s[1..])
  }

  function TrimEnd(s: string): string {
    if s == [] || !IsSpace(s[|s| - 1]) then s else TrimEnd(s[..|s| - 1])
  }

  /** `lstrip`: a suffix, with only whitespace cut off before it, that does not start with whitespace. */
  lemma {:induction false} TrimStartSpec(s: string)
    ensures |TrimStart(s)| <= |s| && TrimStart(s) == s[|s| - |TrimStart(s)|..]
    ensures forall i :: 0 <= i < |s| - |TrimStart(s)| ==> IsSpace(s[i])
    ensures TrimStart(s) == [] || !IsSpace(TrimStart(s)[0])
  {
    if s != [] && IsSpace(s[0]) {
      TrimStartSpec(s[1..]);
      var r := TrimStart(s[1..]);
      assert s[1..][|s| - 1 - |r|..] == s[|s| - |r|..];
      forall i | 0 < i < |s| - |r| ensures IsSpace(s[i]) {
        assert s[i] == s[1..][i - 1];
      }
    }
  }

  /** `rstrip`: a prefix, with only whitespace cut off after it, that does not end with whitespace. */
  lemma {:induction false} TrimEndSpec(s: string)
    ensures |TrimEnd(s)| <= |s| && TrimEnd(s) == s[..|TrimEnd(s)|]
    ensures forall i :: |TrimEnd(s)| <= i < |s| ==> IsSpace(s[i])
    ensures TrimEnd(s) == [] || !IsSpace(TrimEnd(s)[|TrimEnd(s)| - 1])
  {
    if s != [] && IsSpace(s[|s| - 1]) {
      TrimEndSpec(s[..|s| - 1]);
      var r := TrimEnd(s[..|s| - 1]);
      assert s[..|s| - 1][..|r|] == s[..|r|];
      forall i | |r| <= i < |s| - 1 ensures IsSpace(s[i]) {
        assert s[i] == s[..|s| - 1][i];
      }
    }
  }

  /** Leading and trailing whitespace removed, on Python's `isspace` set. */
  function Strip(s: string): string {
    TrimEnd(TrimStart(s))
  }

  /** The stripped text is a slice of the input, only whitespace is cut off
      around it, and it neither starts nor ends with whitespace. */
  lemma StripInfix(s: string)
    ensures exists i, j ::
      && 0 <= i <= j <= |s| && Strip(s) == s[i..j]
      && (forall k :: 0 <= k < i ==> IsSpace(s[k]))
      && (forall k :: j <= k < |s| ==> IsSpace(s[k]))
    ensures Strip(s) == [] || (!IsSpace(Strip(s)[0]) && !IsSpace(Strip(s)[|Strip(s)| - 1]))
  {
    var t := TrimStart(s);
    TrimStartSpec(s);
    var i := |s| - |t|;
    assert t == s[i..];
    var r := TrimEnd(t);
    TrimEndSpec(t);
    var j := i + |r|;
    assert r == s[i..j] by {
      assert r == t[..|r|];
    }
    forall k | j <= k < |s| ensures IsSpace(s[k]) {
      assert |r| <= k - i < |t|;
      assert s[k] == t[k - i];
    }
    if r != [] {
      assert r[0] == t[0];
    }
  }

  lemma StripIdempotent(s: string)
    ensures Strip(Strip(s)) == Strip(s)
  {
    var r := Strip(s);
    StripInfix(s);
    assert TrimStart(r) == r;
    assert TrimEnd(r) == r;
  }

  // ---------------------------------------------------------------------
  // Commenting an entry out

  /** `s.replace('\n', '\n%')`: every line after the first starts with `%`. */
  function PrefixLines(s: string): string {
    if s == [] then [] else (if s[0] == '\n' then "\n%" else [s[0]]) + PrefixLines(s[1..])
  }

  /** Undoes `PrefixLines`: drops a `%` that follows a line break. */
  function UnprefixLines(s: string): string {
    if s == [] then []
    else if s[0] == '\n' && |s| >= 2 && s[1] == '%' then "\n" + UnprefixLines(s[2..])
    else [s[0]] + UnprefixLines(s[1..])
  }

  lemma {:induction false} PrefixLinesRoundTrip(s: string)
    ensures UnprefixLines(PrefixLines(s)) == s
  {
    if s != [] {
      PrefixLinesRoundTrip(s[1..]);
      var rest := PrefixLines(s[1..]);
      if s[0] == '\n' {
        assert ("\n%" + rest)[2..] == rest;
      } else {
        assert ([s[0]] + rest)[1..] == rest;
      }
    }
  }

  /** Every line break of the result is followed by `%`. */
  lemma {:induction false} PrefixLinesMarks(s: string)
    ensures forall i :: 0 <= i < |PrefixLines(s)| && PrefixLines(s)[i] == '\n' ==>
      i + 1 < |PrefixLines(s)| && PrefixLines(s)[i + 1] == '%'
  {
    if s != [] {
      PrefixLinesMarks(s[1..]);
      var rest := PrefixLines(s[1..]);
      var head := if s[0] == '\n' then "\n%" else [s[0]];
      assert PrefixLines(s) == head + rest;
      forall i | |head| <= i < |head| + |rest| ensures PrefixLines(s)[i] == rest[i - |head|] {}
    }
  }

  /** `s[1:]`, which is empty for the empty string. */
  function DropFirst(s: string): string {
    if s == [] then [] else s[1..]
  }

  /** The comment form of a serialized entry: its first character (the `@` of
      the entry type) dropped, surrounding whitespace stripped, every line
      prefixed with `%`, and a blank line after it. */
  function CommentOut(s: string): string {
    "%" + PrefixLines(Strip(DropFirst(s))) + "\n\n"
  }

  /** Every line of the comment starts with `%`, and it ends with a blank line. */
  lemma CommentOutLines(s: string)
    ensures |CommentOut(s)| >= 3 && CommentOut(s)[0] == '%'
    ensures CommentOut(s)[|CommentOut(s)| - 2..] == "\n\n"
    ensures var body := CommentOut(s)[..|CommentOut(s)| - 2];
      forall i :: 0 <= i < |body| && body[i] == '\n' ==> i + 1 < |body| && body[i + 1] == '%'
  {
    var p := PrefixLines(Strip(DropFirst(s)));
    PrefixLinesMarks(Strip(DropFirst(s)));
    var body := CommentOut(s)[..|CommentOut(s)| - 2];
    assert body == "%" + p;
    forall i | 0 < i < |body| ensures body[i] == p[i - 1] {}
  }

  /** The stripped entry text can be read back from its comment. */
  lemma CommentOutRecovers(s: string)
    ensures |CommentOut(s)| >= 3
    ensures UnprefixLines(CommentOut(s)[1..|CommentOut(s)| - 2]) == Strip(DropFirst(s))
  {
    var p := PrefixLines(Strip(DropFirst(s)));
    assert CommentOut(s)[1..|CommentOut(s)| - 2] == p;
    PrefixLinesRoundTrip(Strip(DropFirst(s)));
  }

  // ---------------------------------------------------------------------
  // Group numbers, written with f'{i}'

  function DigitChar(d: int): char
    requires 0 <= d < 10
  {
    ('0' as int + d) as char
  }

  /** The decimal numeral of `n`, without leading zeros. */
  function NatToString(n: nat): string {
    if n < 10 then [DigitChar(n)] else NatToString(n / 10) + [DigitChar(n % 10)]
  }

  /** The numeral is a non-empty string of decimal digits, and it starts with
      `0` only for zero. */
  lemma {:induction false} NatToStringDigits(n: nat)
    ensures NatToString(n) != [] && forall i :: 0 <= i < |NatToString(n)| ==> '0' <= NatToString(n)[i] <= '9'
    ensures NatToString(n)[0] == '0' ==> n == 0
  {
    if n >= 10 {
      NatToStringDigits(n / 10);
      var s := NatToString(n);
      assert s[0] == NatToString(n / 10)[0];
    }
  }

  /** The value of a string of decimal digits, read most significant digit first. */
  function ParseDecimal(s: string): int {
    if s == [] then 0 else 10 * ParseDecimal(s[..|s| - 1]) + (s[|s| - 1] as int - '0' as int)
  }

  lemma {:induction false} NatToStringRoundTrip(n: nat)
    ensures ParseDecimal(NatToString(n)) == n
  {
    if n >= 10 {
      NatToStringRoundTrip(n / 10);
      var s := NatToString(n);
      assert s[..|s| - 1] == NatToString(n / 10);
    }
  }

  /** Distinct groups get distinct numbers. */
  lemma NatToStringInjective(m: nat, n: nat)
    requires NatToString(m) == NatToString(n)
    ensures m == n
  {
    NatToStringRoundTrip(m);
    NatToStringRoundTrip(n);
  }

  // ---------------------------------------------------------------------
  // The file

  const Banner: string := "%%%%%%%%%%%%%%%%%%%%%%%\n"

  function Header(): seq<string> {
    [Banner, "%%% GENERATED BY MH %%%\n", Banner, "\n"]
  }

  function StartLine(i: nat): string {
    "%%% START GROUP " + NatToString(i) + " %%%\n\n"
  }

  function EndLine(i: nat): string {
    "%%% END GROUP " + NatToString(i) + " %%%\n\n"
  }

  /** Every pair names an entry of each file (the dictionary lookups succeed). */
  predicate Present(pairs: seq<Pair>, f1: BibFile, f2: BibFile) {
    forall i :: 0 <= i < |pairs| ==> pairs[i].0 in f1.entries && pairs[i].1 in f2.entries
  }

  /** The five chunks of group `i` for the pair `(k1, k2)`. */
  function Group(i: nat, k1: Key, k2: Key, f1: BibFile, f2: BibFile, render: Entry -> string, preferSecond: bool): seq<string>
    requires k1 in f1.entries && k2 in f2.entries
  {
    var written := if preferSecond then f2.entries[k2] else f1.entries[k1];
    var commented := if preferSecond then f1.entries[k1] else f2.entries[k2];
    [StartLine(i), render(written), "\n", CommentOut(render(commented)), EndLine(i)]
  }

  /** The groups of the first `n` pairs. */
  function Groups(pairs: seq<Pair>, n: nat, f1: BibFile, f2: BibFile, render: Entry -> string, preferSecond: bool): seq<string>
    requires n <= |pairs| && Present(pairs, f1, f2)
  {
    if n == 0 then []
    else Groups(pairs, n - 1, f1, f2, render, preferSecond)
         + Group(n - 1, pairs[n - 1].0, pairs[n - 1].1, f1, f2, render, preferSecond)
  }

  function Document(pairs: seq<Pair>, f1: BibFile, f2: BibFile, render: Entry -> string, preferSecond: bool): seq<string>
    requires Present(pairs, f1, f2)
  {
    Header() + Groups(pairs, |pairs|, f1, f2, render, preferSecond)
  }

  lemma SliceOfLeft<T>(a: seq<T>, b: seq<T>, lo: int, hi: int)
    requires 0 <= lo <= hi <= |a|
    ensures (a + b)[lo..hi] == a[lo..hi]
  {
  }

  lemma SliceOfRight<T>(a: seq<T>, b: seq<T>, lo: int, hi: int)
    requires |a| <= lo <= hi <= |a| + |b|
    ensures (a + b)[lo..hi] == b[lo - |a|..hi - |a|]
  {
  }

  lemma {:induction false} GroupsLength(pairs: seq<Pair>, n: nat, f1: BibFile, f2: BibFile, render: Entry -> string, preferSecond: bool)
    requires n <= |pairs| && Present(pairs, f1, f2)
    ensures |Groups(pairs, n, f1, f2, render, preferSecond)| == 5 * n
  {
    if n > 0 {
      GroupsLength(pairs, n - 1, f1, f2, render, preferSecond);
    }
  }

  /** The five chunks from `5 * i` on are group `i`. */
  lemma {:induction false} GroupsSlice(pairs: seq<Pair>, n: nat, i: nat, f1: BibFile, f2: BibFile,
                                       render: Entry -> string, preferSecond: bool)
    requires i < n <= |pairs| && Present(pairs, f1, f2)
    ensures 5 * i + 5 <= |Groups(pairs, n, f1, f2, render, preferSecond)|
    ensures Groups(pairs, n, f1, f2, render, preferSecond)[5 * i..5 * i + 5]
         == Group(i, pairs[i].0, pairs[i].1, f1, f2, render, preferSecond)
  {
    GroupsLength(pairs, n - 1, f1, f2, render, preferSecond);
    var g := Groups(pairs, n - 1, f1, f2, render, preferSecond);
    var last := Group(n - 1, pairs[n - 1].0, pairs[n - 1].1, f1, f2, render, preferSecond);
    assert Groups(pairs, n, f1, f2, render, preferSecond) == g + last;
    if i < n - 1 {
      GroupsSlice(pairs, n - 1, i, f1, f2, render, preferSecond);
      SliceOfLeft(g, last, 5 * i, 5 * i + 5);
    } else {
      SliceOfRight(g, last, 5 * i, 5 * i + 5);
      assert last[..5] == last;
    }
  }

  lemma DocumentGroup(pairs: seq<Pair>, i: nat, f1: BibFile, f2: BibFile, render: Entry -> string, preferSecond: bool)
    requires Present(pairs, f1, f2) && i < |pairs|
    ensures |Document(pairs, f1, f2, render, preferSecond)| == 4 + 5 * |pairs|
    ensures Document(pairs, f1, f2, render, preferSecond)[4 + 5 * i..4 + 5 * i + 5]
         == Group(i, pairs[i].0, pairs[i].1, f1, f2, render, preferSecond)
  {
    GroupsLength(pairs, |pairs|, f1, f2, render, preferSecond);
    GroupsSlice(pairs, |pairs|, i, f1, f2, render, preferSecond);
    var g := Groups(pairs, |pairs|, f1, f2, render, preferSecond);
    SliceOfRight(Header(), g, 4 + 5 * i, 4 + 5 * i + 5);
  }

  /** The written entry and the commented-out entry of group `i`. */
  lemma DocumentEntries(pairs: seq<Pair>, i: nat, f1: BibFile, f2: BibFile, render: Entry -> string, preferSecond: bool)
    requires Present(pairs, f1, f2) && i < |pairs|
    ensures |Document(pairs, f1, f2, render, preferSecond)| == 4 + 5 * |pairs|
    ensures Document(pairs, f1, f2, render, preferSecond)[4 + 5 * i + 1]
         == render(if preferSecond then f2.entries[pairs[i].1] else f1.entries[pairs[i].0])
    ensures Document(pairs, f1, f2, render, preferSecond)[4 + 5 * i + 3]
         == CommentOut(render(if preferSecond then f1.entries[pairs[i].0] else f2.entries[pairs[i].1]))
  {
    DocumentGroup(pairs, i, f1, f2, render, preferSecond);
    var d := Document(pairs, f1, f2, render, preferSecond);
    var a := 4 + 5 * i;
    assert d[a + 1] == d[a..a + 5][1];
    assert d[a + 3] == d[a..a + 5][3];
  }

  /** Group `i` of the file holds the entry of the preferred file as it is,
      then the other file's entry commented out. */
  lemma DocumentLayout(pairs: seq<Pair>, f1: BibFile, f2: BibFile, render: Entry -> string, preferSecond: bool)
    requires Present(pairs, f1, f2)
    ensures |Document(pairs, f1, f2, render, preferSecond)| == 4 + 5 * |pairs|
    ensures Document(pairs, f1, f2, render, preferSecond)[..4] == Header()
    ensures forall i :: 0 <= i < |pairs| ==>
      && Document(pairs, f1, f2, render, preferSecond)[4 + 5 * i + 1]
         == render(if preferSecond then f2.entries[pairs[i].1] else f1.entries[pairs[i].0])
      && Document(pairs, f1, f2, render, preferSecond)[4 + 5 * i + 3]
         == CommentOut(render(if preferSecond then f1.entries[pairs[i].0] else f2.entries[pairs[i].1]))
  {
    GroupsLength(pairs, |pairs|, f1, f2, render, preferSecond);
    var d := Document(pairs, f1, f2, render, preferSecond);
    assert d[..4] == Header();
    forall i | 0 <= i < |pairs|
      ensures d[4 + 5 * i + 1] == render(if preferSecond then f2.entries[pairs[i].1] else f1.entries[pairs[i].0])
      ensures d[4 + 5 * i + 3] == CommentOut(render(if preferSecond then f1.entries[pairs[i].0] else f2.entries[pairs[i].1]))
    {
      DocumentEntries(pairs, i, f1, f2, render, preferSecond);
    }
  }

  /** Group `i` is framed by its numbered start and end lines. */
  lemma DocumentNumbering(pairs: seq<Pair>, f1: BibFile, f2: BibFile, render: Entry -> string, preferSecond: bool)
    requires Present(pairs, f1, f2)
    ensures |Document(pairs, f1, f2, render, preferSecond)| == 4 + 5 * |pairs|
    ensures forall i :: 0 <= i < |pairs| ==>
      && Document(pairs, f1, f2, render, preferSecond)[4 + 5 * i] == StartLine(i)
      && Document(pairs, f1, f2, render, preferSecond)[4 + 5 * i + 4] == EndLine(i)
  {
    GroupsLength(pairs, |pairs|, f1, f2, render, preferSecond);
    var d := Document(pairs, f1, f2, render, preferSecond);
    forall i | 0 <= i < |pairs|
      ensures d[4 + 5 * i] == StartLine(i) && d[4 + 5 * i + 4] == EndLine(i)
    {
      DocumentGroup(pairs, i, f1, f2, render, preferSecond);
      var a := 4 + 5 * i;
      ghost var group := Group(i, pairs[i].0, pairs[i].1, f1, f2, render, preferSecond);
      assert group[0] == StartLine(i) && group[4] == EndLine(i);
      assert d[a] == d[a..a + 5][0];
      assert d[a + 4] == d[a..a + 5][4];
    }
  }

  /** The serializing loop. A dry run writes nothing; otherwise the file is
      the header followed by one group per pair, in order. */
  method SerializeEntries(pairs: seq<Pair>, f1: BibFile, f2: BibFile, render: Entry -> string,
                          preferSecond: bool, dryRun: bool)
    returns (out: Option<seq<string>>)
    requires Present(pairs, f1, f2)
    ensures out.None? <==> dryRun
    ensures out.Some? ==> out.value == Document(pairs, f1, f2, render, preferSecond)
  {
    var chunks: seq<string> := [];
    if !dryRun {
      chunks := chunks + [Banner];
      chunks := chunks + ["%%% GENERATED BY MH %%%\n"];
      chunks := chunks + [Banner];
      chunks := chunks + ["\n"];
    }
    for i := 0 to |pairs|
      invariant !dryRun ==> chunks == Header() + Groups(pairs, i, f1, f2, render, preferSecond)
    {
      var (k1, k2) := pairs[i];
      var entry, comment;
      if preferSecond {
        entry := f2.entries[k2];
        comment := f1.entries[k1];
      } else {
        entry := f1.entries[k1];
        comment := f2.entries[k2];
      }
      if !dryRun {
        // the five writes of group i, in order
        var group := [StartLine(i), render(entry), "\n", CommentOut(render(comment)), EndLine(i)];
        assert group == Group(i, k1, k2, f1, f2, render, preferSecond);
        assert Header() + Groups(pairs, i + 1, f1, f2, render, preferSecond)
            == (Header() + Groups(pairs, i, f1, f2, render, preferSecond)) + group;
        chunks := chunks + group;
      }
    }
    out := if dryRun then None else Some(chunks);
  }
}
