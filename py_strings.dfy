/** The Python string built-ins the service relies on: `str.isspace` for one
    character, `str.lower`, `str.strip()` and `str.split()` with no separator;
    `" ".join` is added as an auxiliary, to state what `split()` undoes.
    Strings are sequences of Unicode scalar values, as Python's `str` is a
    sequence of code points. */
module PyStrings {
  import opened Sequences

  /** The characters Python's `str.isspace` accepts: tab, line feed, vertical
      tab, form feed, carriage return, the four ASCII information separators
      0x1C-0x1F, space, next line, no-break space, and the Unicode space,
      line and paragraph separators. */
  predicate IsSpace(c: char) {
    || '\t' <= c <= '\r'
    || '\U{1C}' <= c <= ' '
    || c == '\U{85}' || c == '\U{A0}' || c == '\U{1680}'
    || '\U{2000}' <= c <= '\U{200A}'
    || c == '\U{2028}' || c == '\U{2029}' || c == '\U{202F}'
    || c == '\U{205F}' || c == '\U{3000}'
  }

  /** The complement of IsSpace, as a value that can be passed to Filter. */
  predicate NotSpace(c: char) {
    !IsSpace(c)
  }

  predicate AllSpace(s: string) {
    forall i :: 0 <= i < |s| ==> IsSpace(s[i])
  }

  /** A token as `str.split()` produces it: non-empty and free of whitespace. */
  predicate IsWord(w: string) {
    w != [] && forall i :: 0 <= i < |w| ==> !IsSpace(w[i])
  }

  predicate IsAsciiUpper(c: char) {
    'A' <= c <= 'Z'
  }

  function LowerChar(c: char): char {
    if IsAsciiUpper(c) then (c as int + 32) as char else c
  }

  /** `str.lower` on the ASCII letters; every other character is kept. */
  function Lower(w: string): (r: string)
    ensures |r| == |w|
    ensures forall i :: 0 <= i < |w| ==> !IsAsciiUpper(r[i])
    ensures forall i :: 0 <= i < |w| ==> r[i] == w[i] || (IsAsciiUpper(w[i]) && r[i] as int == w[i] as int + 32)
  {
    seq(|w|, i requires 0 <= i < |w| => LowerChar(w[i]))
  }

  /** Lower-casing twice is lower-casing once. */
  lemma LowerIdempotent(w: string)
    ensures Lower(Lower(w)) == Lower(w)
  {
  }

  // ---------------------------------------------------------------------
  // str.strip()

  /** `str.lstrip()`: drop the leading whitespace. */
  function TrimStart(s: string): (r: string)
    ensures |r| <= |s| && r == s[|s| - |r|..]
    ensures r == [] || !IsSpace(r[0])
    ensures AllSpace(s[..|s| - |r|])
    decreases |s|
  {
    if s != [] && IsSpace(s[0]) then TrimStart(s[1..]) else s
  }

  /** `str.rstrip()`: drop the trailing whitespace. */
  function TrimEnd(s: string): (r: string)
    ensures |r| <= |s| && r == s[..|r|]
    ensures r == [] || !IsSpace(r[|r| - 1])
    ensures AllSpace(s[|r|..])
    decreases |s|
  {
    if s != [] && IsSpace(s[|s| - 1]) then
      var r := TrimEnd(s[..|s| - 1]);
      assert s[|r|..] == s[..|s| - 1][|r|..] + [s[|s| - 1]];
      r
    else s
  }

  /** `str.strip()`: drop the leading and the trailing whitespace. */
  function Strip(s: string): (r: string)
    ensures |r| <= |s|
    ensures r == [] <==> AllSpace(s)
    ensures r != [] ==> !IsSpace(r[0]) && !IsSpace(r[|r| - 1])
  {
    var t := TrimStart(s);
    assert s == s[..|s| - |t|] + t;
    TrimEnd(t)
  }

  /** The stripped string is a slice of the input whose margins on both sides
      are whitespace only: nothing inside is touched. */
  lemma StripIsSlice(s: string) returns (k: nat)
    ensures k + |Strip(s)| <= |s|
    ensures Strip(s) == s[k..k + |Strip(s)|]
    ensures AllSpace(s[..k]) && AllSpace(s[k + |Strip(s)|..])
  {
    var t := TrimStart(s);
    k := |s| - |t|;
    assert AllSpace(s[..k]);
    var r := TrimEnd(t);
    assert Strip(s) == r;
    assert r == t[..|r|] && AllSpace(t[|r|..]);
    SliceOfSuffix(s, t, r, k);
  }

  /** A prefix `r` of the suffix `t` of `s` that starts at `k` is the slice of
      `s` from `k`, and what follows it in `t` is what follows it in `s`. */
  lemma SliceOfSuffix(s: string, t: string, r: string, k: nat)
    requires k <= |s| && t == s[k..]
    requires |r| <= |t| && r == t[..|r|]
    requires AllSpace(t[|r|..])
    ensures k + |r| <= |s| && r == s[k..k + |r|] && AllSpace(s[k + |r|..])
  {
    assert t[|r|..] == s[k + |r|..];
  }

  /** Stripping twice is stripping once. */
  lemma StripIdempotent(s: string)
    ensures Strip(Strip(s)) == Strip(s)
  {
  }

  /** A concatenation is whitespace only exactly when both parts are. */
  lemma AllSpaceConcat(a: string, b: string)
    ensures AllSpace(a + b) <==> AllSpace(a) && AllSpace(b)
  {
    if AllSpace(a + b) {
      forall i | 0 <= i < |a| ensures IsSpace(a[i]) {
        assert a[i] == (a + b)[i];
      }
      forall i | 0 <= i < |b| ensures IsSpace(b[i]) {
        assert b[i] == (a + b)[|a| + i];
      }
    }
  }

  // ---------------------------------------------------------------------
  // str.split() and " ".join

  /** Length of the leading run of non-whitespace characters. */
  function TokenEnd(s: string): (n: nat)
    ensures n <= |s|
    ensures forall i :: 0 <= i < n ==> !IsSpace(s[i])
    ensures n == |s| || IsSpace(s[n])
  {
    if s == [] || IsSpace(s[0]) then 0 else 1 + TokenEnd(s[1..])
  }

  /** `str.split()` with no separator: the maximal runs of non-whitespace
      characters, in order; runs of whitespace, including leading and
      trailing ones, separate tokens and yield no empty token. */
  function Split(s: string): (words: seq<string>)
    ensures forall w :: w in words ==> IsWord(w)
    ensures forall w, c :: w in words && c in w ==> c in s
    decreases |s|
  {
    if s == [] then []
    else if IsSpace(s[0]) then Split(s[1..])
    else
      var n := TokenEnd(s);
      assert s == s[..n] + s[n..];
      [s[..n]] + Split(s[n..])
  }

  /** Concatenation of a sequence of strings. */
  function Concat(words: seq<string>): string {
    if words == [] then [] else words[0] + Concat(words[1..])
  }

  /** `" ".join(words)`: an auxiliary used to state that `split()` has a
      left inverse; the service itself never joins with spaces. */
  function JoinWords(words: seq<string>): string {
    if words == [] then []
    else if |words| == 1 then words[0]
    else words[0] + " " + JoinWords(words[1..])
  }

  /** Splitting loses nothing but the whitespace: the tokens, glued back
      together, are exactly the non-whitespace characters of the input in
      their original order. */
  lemma {:induction false} SplitKeepsText(s: string)
    ensures Concat(Split(s)) == Filter(s, NotSpace)
    decreases |s|
  {
    if s != [] {
      SplitKeepsText(s[1..]);
      if !IsSpace(s[0]) {
        var n := TokenEnd(s);
        SplitKeepsText(s[n..]);
        assert s == s[..n] + s[n..];
        FilterAppend(s[..n], s[n..], NotSpace);
        FilterKeepsAll(s[..n], NotSpace);
        assert Split(s)[1..] == Split(s[n..]);
      }
    }
  }

  /** A word followed by nothing or by whitespace is one whole token. */
  lemma {:induction false} TokenEndOfWord(w: string, t: string)
    requires forall i :: 0 <= i < |w| ==> !IsSpace(w[i])
    requires t == [] || IsSpace(t[0])
    ensures TokenEnd(w + t) == |w|
    decreases |w|
  {
    if w != [] {
      TokenEndOfWord(w[1..], t);
      assert (w + t)[1..] == w[1..] + t;
    }
  }

  /** `str.split()` undoes `" ".join` on a list of tokens. */
  lemma {:induction false} SplitJoinWords(words: seq<string>)
    requires forall i :: 0 <= i < |words| ==> IsWord(words[i])
    ensures Split(JoinWords(words)) == words
    decreases |words|
  {
    if words != [] {
      var w := words[0];
      if |words| == 1 {
        TokenEndOfWord(w, []);
        assert w + [] == w;
        assert w[..|w|] == w && w[|w|..] == [];
      } else {
        var rest := JoinWords(words[1..]);
        var s := w + " " + rest;
        SplitJoinWords(words[1..]);
        TokenEndOfWord(w, " " + rest);
        assert s == w + (" " + rest);
        assert s[..|w|] == w;
        assert s[|w|..] == " " + rest;
        assert (" " + rest)[1..] == rest;
        assert Split(s) == [w] + Split(" " + rest);
        assert words == [w] + words[1..];
      }
    }
  }

  /** Every whitespace character separates tokens, wherever it stands and
      however many of them there are: splitting around one whitespace
      character is splitting both sides. */
  lemma {:induction false} SplitSeparator(a: string, c: char, b: string)
    requires IsSpace(c)
    ensures Split(a + [c] + b) == Split(a) + Split(b)
    decreases |a|
  {
    var s := a + [c] + b;
    if a == [] {
      assert s == [c] + b && s[1..] == b;
    } else if IsSpace(a[0]) {
      SplitSeparator(a[1..], c, b);
      assert s[1..] == a[1..] + [c] + b;
    } else {
      var n := TokenEnd(a);
      var w, tail := a[..n], a[n..];
      assert a == w + tail;
      SplitSeparator(tail, c, b);
      SplitSeparatorAfterWord(w, tail, c, b);
    }
  }

  /** The step of SplitSeparator when the text starts with the token `w`:
      the token is split off on both sides, and the rest is the shorter case. */
  lemma SplitSeparatorAfterWord(w: string, tail: string, c: char, b: string)
    requires IsWord(w) && (tail == [] || IsSpace(tail[0])) && IsSpace(c)
    requires Split(tail + [c] + b) == Split(tail) + Split(b)
    ensures Split(w + tail + [c] + b) == Split(w + tail) + Split(b)
  {
    var rest := tail + [c] + b;
    assert rest[0] == if tail == [] then c else tail[0];
    assert w + tail + [c] + b == w + rest;
    var x, y, z := [w], Split(tail), Split(b);
    calc {
      Split(w + rest);
      { SplitAfterWord(w + rest, w, rest); }
      x + (y + z);
      { SeqConcatAssoc(x, y, z); }
      (x + y) + z;
      { SplitAfterWord(w + tail, w, tail); }
      Split(w + tail) + z;
    }
  }

  lemma SeqConcatAssoc<T>(x: seq<T>, y: seq<T>, z: seq<T>)
    ensures x + (y + z) == (x + y) + z
  {
  }

  /** A token followed by nothing or by whitespace is split off whole. */
  lemma SplitAfterWord(s: string, w: string, rest: string)
    requires IsWord(w) && (rest == [] || IsSpace(rest[0])) && s == w + rest
    ensures Split(s) == [w] + Split(rest)
  {
    TokenEndOfWord(w, rest);
    assert s[0] == w[0] && s[..|w|] == w && s[|w|..] == rest;
  }

  /** A text without whitespace is one token, and a whitespace-only text has
      none: with SplitSeparator this pins `split()` down on every input. */
  lemma SplitOfWord(w: string)
    requires IsWord(w)
    ensures Split(w) == [w]
  {
    SplitJoinWords([w]);
  }

  lemma {:induction false} SplitOfSpace(s: string)
    requires AllSpace(s)
    ensures Split(s) == []
    decreases |s|
  {
    if s != [] {
      SplitOfSpace(s[1..]);
    }
  }

  /** The characters `str.isspace` accepts, listed one by one. */
  const WhitespaceChars: string :=
    "\t\n\U{B}\U{C}\r\U{1C}\U{1D}\U{1E}\U{1F} \U{85}\U{A0}\U{1680}"
    + "\U{2000}\U{2001}\U{2002}\U{2003}\U{2004}\U{2005}\U{2006}\U{2007}\U{2008}\U{2009}\U{200A}"
    + "\U{2028}\U{2029}\U{202F}\U{205F}\U{3000}"

  /** The whitespace characters are listed in increasing order, so the 29
      of them are distinct. */
  lemma WhitespaceCharsDistinct()
    ensures |set c | c in WhitespaceChars| == |WhitespaceChars| == 29
  {
    var w := WhitespaceChars;
    assert |w| == 29;
    assert forall i :: 0 < i < |w| ==> w[i - 1] < w[i];
    IncreasingSetSize(w);
  }

  /** IsSpace accepts exactly the 29 listed characters, which are distinct. */
  lemma IsSpaceListed(c: char)
    ensures IsSpace(c) <==> c in WhitespaceChars
    ensures |WhitespaceChars| == 29
    ensures |set d | d in WhitespaceChars| == 29
  {
    WhitespaceCharsDistinct();
    IsSpaceIsListed(c);
  }

  /** The membership half of IsSpaceListed. */
  lemma IsSpaceIsListed(c: char)
    ensures IsSpace(c) <==> c in WhitespaceChars
  {
    var w := WhitespaceChars;
    assert forall i :: 0 <= i < |w| ==> IsSpace(w[i]);
    if '\t' <= c <= '\r' {
      assert c == w[c as int - 9];
    } else if '\U{1C}' <= c <= ' ' {
      assert c == w[c as int - 0x1C + 5];
    } else if '\U{2000}' <= c <= '\U{200A}' {
      assert c == w[c as int - 0x2000 + 13];
    }
  }

  /** A strictly increasing string has as many distinct characters as it is long. */
  lemma {:induction false} IncreasingSetSize(s: string)
    requires forall i :: 0 < i < |s| ==> s[i - 1] < s[i]
    ensures |set c | c in s| == |s|
  {
    if s != [] {
      IncreasingSetSize(s[1..]);
      IncreasingFirstIsLeast(s);
      assert (set c | c in s) == {s[0]} + (set c | c in s[1..]);
    }
  }

  lemma {:induction false} IncreasingFirstIsLeast(s: string)
    requires s != []
    requires forall i :: 0 < i < |s| ==> s[i - 1] < s[i]
    ensures s[0] !in s[1..]
    ensures forall c :: c in s[1..] ==> s[0] < c
  {
    if |s| > 1 {
      IncreasingFirstIsLeast(s[1..]);
      assert s[1..] == [s[1]] + s[2..];
    }
  }
}
