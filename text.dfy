/**
 * The text normaliser `cleanup_text` that titles go through before they are
 * compared: line breaks become spaces, apostrophes and ASCII punctuation are
 * removed, the whitespace-separated tokens whose lower case is a stopword are
 * dropped, and the rest is rejoined with single spaces and lower-cased.
 * The stopword list is a parameter: it comes from an external corpus.
 */
module Text {

  /** Python's `str.isspace()` on one character: the separators that
      `str.split()` and `str.strip()` without arguments use. */
  predicate IsSpace(c: char) {
    || ('\t' <= c <= '\r')
    || ('\U{1C}' <= c <= '\U{1F}')
    || c == ' ' || c == '\U{85}' || c == '\U{A0}' || c == '\U{1680}'
    || ('\U{2000}' <= c <= '\U{200A}')
    || c == '\U{2028}' || c == '\U{2029}' || c == '\U{202F}' || c == '\U{205F}' || c == '\U{3000}'
  }

  /** Membership in Python's `string.punctuation`: the 32 printable ASCII
      characters that are neither letters, digits nor space. */
  predicate IsPunctuation(c: char) {
    ('!' <= c <= '/') || (':' <= c <= '@') || ('[' <= c <= '`') || ('{' <= c <= '~')
  }

  predicate IsApostrophe(c: char) {
    c == '\''
  }

  /** The upper-case letters of ASCII and Latin-1; each one's lower case lies 32 code points higher. */
  predicate IsUpper(c: char) {
    ('A' <= c <= 'Z') || ('\U{C0}' <= c <= '\U{DE}' && c != '\U{D7}')
  }

  function LowerChar(c: char): char {
    if IsUpper(c) then (c as int + 32) as char else c
  }

  /** The lower-cased character is never upper case, a character that is not
      upper case is left alone, and whitespace and punctuation stay what they are. */
  lemma LowerCharSpec(c: char)
    ensures !IsUpper(LowerChar(c))
    ensures !IsUpper(c) ==> LowerChar(c) == c
    ensures IsSpace(LowerChar(c)) == IsSpace(c) && IsPunctuation(LowerChar(c)) == IsPunctuation(c)
  {
  }

  /** `str.lower()`. */
  function Lower(s: string): string {
    seq(|s|, i requires 0 <= i < |s| => LowerChar(s[i]))
  }

  predicate Every(s: string, p: char -> bool) {
    forall i :: 0 <= i < |s| ==> p(s[i])
  }

  /** `s.replace(target, replacement)` for one-character arguments. */
  function ReplaceChar(s: string, target: char, replacement: char): string {
    seq(|s|, i requires 0 <= i < |s| => if s[i] == target then replacement else s[i])
  }

  /** `''.join([c for c in s if not drop(c)])`; also `s.replace(c, '')` for one character. */
  function Without(s: string, drop: char -> bool): string {
    if s == [] then [] else (if drop(s[0]) then [] else [s[0]]) + Without(s[1..], drop)
  }

  /** A whitespace-free, non-empty word as `str.split()` produces it. */
  predicate IsToken(w: string) {
    |w| > 0 && forall i :: 0 <= i < |w| ==> !IsSpace(w[i])
  }

  /** The longest whitespace-free prefix of `s`. */
  function Word(s: string): string {
    if s == [] || IsSpace(s[0]) then [] else [s[0]] + Word(s[1..])
  }

  /** `s.split()`: the maximal runs of non-whitespace characters, in order. */
  function Split(s: string): seq<string>
    decreases |s|
  {
    if s == [] then []
    else if IsSpace(s[0]) then Split(s[1..])
    else var w := Word(s); WordSpec(s); [w] + Split(s[|w|..])
  }

  /** `' '.join(ws)`. */
  function Join(ws: seq<string>): string {
    if |ws| == 0 then "" else if |ws| == 1 then ws[0] else ws[0] + " " + Join(ws[1..])
  }

  /** `[w for w in ws if w.lower() not in stopwords]`. */
  function DropStopwords(stopwords: set<string>, ws: seq<string>): seq<string> {
    if ws == [] then []
    else (if Lower(ws[0]) in stopwords then [] else [ws[0]]) + DropStopwords(stopwords, ws[1..])
  }

  function LowerAll(ws: seq<string>): seq<string> {
    seq(|ws|, i requires 0 <= i < |ws| => Lower(ws[i]))
  }

  /** The lower-cased tokens of `ws` that are not stopwords, in their original order. */
  function KeptTokens(stopwords: set<string>, ws: seq<string>): seq<string> {
    if ws == [] then []
    else (if Lower(ws[0]) in stopwords then [] else [Lower(ws[0])]) + KeptTokens(stopwords, ws[1..])
  }

  /** The text with its line breaks turned into spaces and its apostrophes removed. */
  function Prepared(text: string): string {
    Without(ReplaceChar(ReplaceChar(text, '\n', ' '), '\r', ' '), IsApostrophe)
  }

  /** The whitespace-separated tokens of the text once punctuation is gone. */
  function Tokens(text: string): seq<string> {
    Split(Without(Prepared(text), IsPunctuation))
  }

  /** `cleanup_text(text)`. */
  function CleanupText(stopwords: set<string>, text: string): string {
    Lower(Join(DropStopwords(stopwords, Tokens(text))))
  }

  // ---------------------------------------------------------------------
  // Lemmas about the pieces

  lemma {:induction false} WithoutDrops(s: string, drop: char -> bool)
    ensures forall i :: 0 <= i < |Without(s, drop)| ==> !drop(Without(s, drop)[i])
  {
    if s != [] {
      WithoutDrops(s[1..], drop);
    }
  }

  /** `Word(s)` is a prefix of `s` without whitespace that ends at whitespace or
      at the end of `s`, and it is not empty when `s` starts with a non-space. */
  lemma {:induction false} WordSpec(s: string)
    ensures var w := Word(s);
      && |w| <= |s| && w == s[..|w|]
      && (forall i :: 0 <= i < |w| ==> !IsSpace(w[i]))
      && (|w| < |s| ==> IsSpace(s[|w|]))
      && (s != [] && !IsSpace(s[0]) ==> |w| > 0)
  {
    if s != [] && !IsSpace(s[0]) {
      WordSpec(s[1..]);
    }
  }

  /** Every word `Split` produces is a token. */
  lemma {:induction false} SplitTokens(s: string)
    ensures forall i :: 0 <= i < |Split(s)| ==> IsToken(Split(s)[i])
    decreases |s|
  {
    if s != [] {
      if IsSpace(s[0]) {
        SplitTokens(s[1..]);
      } else {
        var w := Word(s);
        WordSpec(s);
        SplitTokens(s[|w|..]);
      }
    }
  }

  lemma {:induction false} DropStopwordsSubset(stopwords: set<string>, ws: seq<string>)
    ensures forall w :: w in DropStopwords(stopwords, ws) ==> w in ws
  {
    if ws != [] {
      DropStopwordsSubset(stopwords, ws[1..]);
    }
  }

  lemma {:induction false} KeptTokensClean(stopwords: set<string>, ws: seq<string>)
    ensures var r := KeptTokens(stopwords, ws);
      forall i :: 0 <= i < |r| ==> r[i] !in stopwords && Lower(r[i]) == r[i]
  {
    if ws != [] {
      KeptTokensClean(stopwords, ws[1..]);
      LowerIdempotent(ws[0]);
      var head := if Lower(ws[0]) in stopwords then [] else [Lower(ws[0])];
      var r := KeptTokens(stopwords, ws);
      assert r == head + KeptTokens(stopwords, ws[1..]);
      forall i | 0 <= i < |r| ensures r[i] !in stopwords && Lower(r[i]) == r[i] {
        if i >= |head| {
          assert r[i] == KeptTokens(stopwords, ws[1..])[i - |head|];
        }
      }
    }
  }

  lemma LowerIdempotent(s: string)
    ensures Lower(Lower(s)) == Lower(s)
  {
  }

  lemma {:induction false} WithoutKeeps(s: string, drop: char -> bool, p: char -> bool)
    requires Every(s, p)
    ensures Every(Without(s, drop), p)
  {
    if s != [] {
      WithoutKeeps(s[1..], drop, p);
    }
  }

  lemma {:induction false} WithoutNothing(s: string, drop: char -> bool)
    requires forall i :: 0 <= i < |s| ==> !drop(s[i])
    ensures Without(s, drop) == s
  {
    if s != [] {
      WithoutNothing(s[1..], drop);
      assert s == [s[0]] + s[1..];
    }
  }

  lemma {:induction false} WordOfToken(w: string, rest: string)
    requires IsToken(w)
    requires rest == [] || IsSpace(rest[0])
    ensures Word(w + rest) == w
  {
    var s := w + rest;
    assert s[0] == w[0];
    if |w| == 1 {
      assert s[1..] == rest;
    } else {
      assert s[1..] == w[1..] + rest;
      WordOfToken(w[1..], rest);
      assert w == [w[0]] + w[1..];
    }
  }

  /** Splitting what was joined gives the tokens back. */
  lemma {:induction false} SplitJoin(ws: seq<string>)
    requires forall i :: 0 <= i < |ws| ==> IsToken(ws[i])
    ensures Split(Join(ws)) == ws
  {
    if |ws| == 1 {
      WordOfToken(ws[0], "");
      assert ws[0] + "" == ws[0];
      assert ws[0][|ws[0]|..] == "";
    } else if |ws| > 1 {
      var rest := Join(ws[1..]);
      var s := ws[0] + " " + rest;
      assert s == ws[0] + (" " + rest);
      WordOfToken(ws[0], " " + rest);
      assert s[|ws[0]|..] == " " + rest;
      assert (" " + rest)[1..] == rest;
      SplitJoin(ws[1..]);
      assert ws == [ws[0]] + ws[1..];
    }
  }

  lemma {:induction false} SplitKeeps(s: string, p: char -> bool)
    requires Every(s, p)
    ensures forall i :: 0 <= i < |Split(s)| ==> Every(Split(s)[i], p)
    decreases |s|
  {
    if s != [] {
      if IsSpace(s[0]) {
        SplitKeeps(s[1..], p);
      } else {
        var w := Word(s);
        WordSpec(s);
        SplitKeeps(s[|w|..], p);
      }
    }
  }

  lemma {:induction false} JoinKeeps(ws: seq<string>, p: char -> bool)
    requires p(' ')
    requires forall i :: 0 <= i < |ws| ==> Every(ws[i], p)
    ensures Every(Join(ws), p)
  {
    if |ws| > 1 {
      JoinKeeps(ws[1..], p);
    }
  }

  /** Joining one more word appends a space and the word. */
  lemma {:induction false} JoinSnoc(ws: seq<string>, w: string)
    requires |ws| > 0
    ensures Join(ws + [w]) == Join(ws) + " " + w
  {
    if |ws| > 1 {
      assert (ws + [w])[1..] == ws[1..] + [w];
      JoinSnoc(ws[1..], w);
    }
  }

  lemma LowerConcat(a: string, b: string)
    ensures Lower(a + b) == Lower(a) + Lower(b)
  {
  }

  lemma {:induction false} LowerJoin(ws: seq<string>)
    ensures Lower(Join(ws)) == Join(LowerAll(ws))
  {
    if |ws| > 1 {
      LowerJoin(ws[1..]);
      LowerConcat(ws[0] + " ", Join(ws[1..]));
      LowerConcat(ws[0], " ");
      assert LowerAll(ws)[1..] == LowerAll(ws[1..]);
    }
  }

  lemma {:induction false} LowerDropIsKept(stopwords: set<string>, ws: seq<string>)
    ensures LowerAll(DropStopwords(stopwords, ws)) == KeptTokens(stopwords, ws)
  {
    if ws != [] {
      LowerDropIsKept(stopwords, ws[1..]);
      var head := if Lower(ws[0]) in stopwords then [] else [ws[0]];
      var tail := DropStopwords(stopwords, ws[1..]);
      assert LowerAll(head + tail) == LowerAll(head) + LowerAll(tail);
    }
  }

  lemma {:induction false} DropNothing(stopwords: set<string>, ws: seq<string>)
    requires forall i :: 0 <= i < |ws| ==> Lower(ws[i]) !in stopwords
    ensures DropStopwords(stopwords, ws) == ws
  {
    if ws != [] {
      DropNothing(stopwords, ws[1..]);
      assert ws == [ws[0]] + ws[1..];
    }
  }

  /** A token is kept exactly when some input token lower-cases to it and it is no stopword. */
  lemma {:induction false} KeptTokensMembers(stopwords: set<string>, ws: seq<string>, w: string)
    ensures w in KeptTokens(stopwords, ws) <==> w !in stopwords && exists t :: t in ws && Lower(t) == w
  {
    if ws != [] {
      KeptTokensMembers(stopwords, ws[1..], w);
      if w !in stopwords && Lower(ws[0]) == w {
        assert w in KeptTokens(stopwords, ws);
      }
      if exists t :: t in ws && Lower(t) == w {
        var t :| t in ws && Lower(t) == w;
        if t != ws[0] {
          assert t in ws[1..];
        }
      }
    }
  }

  // ---------------------------------------------------------------------
  // What cleanup_text promises

  /** The normalised text holds no punctuation, no line break and no upper-case
      letter, and its only whitespace is the plain space. */
  lemma CleanupCharacters(stopwords: set<string>, text: string)
    ensures var r := CleanupText(stopwords, text);
      forall i :: 0 <= i < |r| ==>
        && !IsPunctuation(r[i]) && r[i] != '\n' && r[i] != '\r' && !IsUpper(r[i])
        && (IsSpace(r[i]) ==> r[i] == ' ')
  {
    var unpunctuated := Without(Prepared(text), IsPunctuation);
    var notPunct := (c: char) => !IsPunctuation(c);
    var tokenChar := (c: char) => !IsPunctuation(c) && (IsSpace(c) ==> c == ' ');
    WithoutDrops(Prepared(text), IsPunctuation);
    SplitKeeps(unpunctuated, notPunct);
    SplitTokens(unpunctuated);
    var kept := DropStopwords(stopwords, Split(unpunctuated));
    DropStopwordsSubset(stopwords, Split(unpunctuated));
    forall i | 0 <= i < |kept| ensures Every(kept[i], tokenChar) {
      assert kept[i] in Split(unpunctuated);
    }
    JoinKeeps(kept, tokenChar);
  }

  /** The normalised text is the input's surviving tokens, lower-cased, in their
      original order and joined by single spaces; none of them is a stopword. */
  lemma CleanupTokens(stopwords: set<string>, text: string)
    ensures var r := CleanupText(stopwords, text);
      && Split(r) == KeptTokens(stopwords, Tokens(text))
      && Join(Split(r)) == r
      && forall i :: 0 <= i < |Split(r)| ==> Lower(Split(r)[i]) !in stopwords
  {
    var kept := DropStopwords(stopwords, Tokens(text));
    var lowered := LowerAll(kept);
    LowerJoin(kept);
    SplitTokens(Without(Prepared(text), IsPunctuation));
    DropStopwordsSubset(stopwords, Tokens(text));
    KeptTokensClean(stopwords, Tokens(text));
    forall i | 0 <= i < |lowered| ensures IsToken(lowered[i]) {
      assert kept[i] in Tokens(text);
    }
    SplitJoin(lowered);
    LowerDropIsKept(stopwords, Tokens(text));
  }

  /** Normalising normalised text changes nothing. */
  lemma CleanupIdempotent(stopwords: set<string>, text: string)
    ensures CleanupText(stopwords, CleanupText(stopwords, text)) == CleanupText(stopwords, text)
  {
    var r := CleanupText(stopwords, text);
    CleanupCharacters(stopwords, text);
    CleanupTokens(stopwords, text);
    assert ReplaceChar(r, '\n', ' ') == r;
    assert ReplaceChar(r, '\r', ' ') == r;
    WithoutNothing(r, IsApostrophe);
    assert Prepared(r) == r;
    WithoutNothing(r, IsPunctuation);
    assert Tokens(r) == Split(r);
    DropNothing(stopwords, Split(r));
    assert Lower(r) == r;
  }
}
