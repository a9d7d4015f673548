/** The service's text-cleaning helper `text_process` (index.py:29-37): drop
    every punctuation character, split what is left on runs of whitespace, and
    drop every token whose lower-cased form is a stopword. The punctuation set
    and the stopword list are parameters; `PythonPunctuation` is the set the
    service passes (Python's `string.punctuation`). The English stopword list
    of NLTK is data fetched at start-up and is not part of this model. */
module TextProcess {
  import opened Sequences
  import opened PyStrings

  /** Python's `string.punctuation`: the 32 ASCII punctuation characters. */
  const PunctuationChars: string := "!\"#$%&'()*+,-./:;<=>?@[\\]^_`{|}~"

  function PythonPunctuation(): (p: set<char>)
    ensures |p| == 32
    ensures forall c :: c in p ==> '!' <= c <= '~' && !IsSpace(c)
    ensures forall c :: c in p ==> !('0' <= c <= '9' || 'A' <= c <= 'Z' || 'a' <= c <= 'z')
  {
    PunctuationCharsIncrease();
    PunctuationCharsArePrintable();
    PunctuationCharsAreNotAlphanumeric();
    IncreasingSetSize(PunctuationChars);
    set c | c in PunctuationChars
  }

  /** The characters of `string.punctuation` are listed in increasing order. */
  lemma PunctuationCharsIncrease()
    ensures forall i :: 0 < i < |PunctuationChars| ==> PunctuationChars[i - 1] < PunctuationChars[i]
  {
  }

  /** The characters of `string.punctuation` are printable ASCII, none of
      them whitespace. */
  lemma PunctuationCharsArePrintable()
    ensures forall c :: c in PunctuationChars ==> '!' <= c <= '~'
  {
    var p := PunctuationChars;
    assert forall i :: 0 <= i < |p| ==> '!' <= p[i] <= '~';
  }

  /** No character of `string.punctuation` is a letter or a digit. */
  lemma PunctuationCharsAreNotAlphanumeric()
    ensures forall c :: c in PunctuationChars ==> !('0' <= c <= '9' || 'A' <= c <= 'Z' || 'a' <= c <= 'z')
  {
    var p := PunctuationChars;
    assert forall i :: 0 <= i < |p| ==> !('0' <= p[i] <= '9' || 'A' <= p[i] <= 'Z' || 'a' <= p[i] <= 'z');
  }

  /** The keep-predicate of the first comprehension (index.py:35). */
  function NotPunctuation(punct: set<char>): (keep: char -> bool)
    ensures forall c :: keep(c) <==> c !in punct
  {
    c => c !in punct
  }

  /** The keep-predicate of the last comprehension (index.py:37). */
  function NotStopword(stopwords: set<string>): (keep: string -> bool)
    ensures forall w :: keep(w) <==> Lower(w) !in stopwords
  {
    w => Lower(w) !in stopwords
  }

  /** `''.join([char for char in mess if char not in punct])` (index.py:35-36). */
  function RemovePunctuation(mess: string, punct: set<char>): (r: string)
    ensures |r| <= |mess|
    ensures forall c :: c in r ==> c in mess && c !in punct
  {
    Filter(mess, NotPunctuation(punct))
  }

  /** `[word for word in words if word.lower() not in stopwords]` (index.py:37). */
  function RemoveStopwords(words: seq<string>, stopwords: set<string>): (r: seq<string>)
    ensures |r| <= |words|
    ensures forall w :: w in r ==> w in words && Lower(w) !in stopwords
  {
    Filter(words, NotStopword(stopwords))
  }

  /** `text_process(mess)` (index.py:29-37), with the punctuation set and the
      stopword list as parameters. Each token is a non-empty, whitespace-free
      run of characters of the input, none of them punctuation, and no
      token's lower-cased form is a stopword. */
  function Clean(mess: string, punct: set<char>, stopwords: set<string>): (tokens: seq<string>)
    ensures forall w :: w in tokens ==> IsWord(w) && Lower(w) !in stopwords
    ensures forall w, c :: w in tokens && c in w ==> c in mess && c !in punct
  {
    RemoveStopwords(Split(RemovePunctuation(mess, punct)), stopwords)
  }

  /** The depunctuated text is the input with exactly the punctuation
      characters removed: an order-preserving subsequence of the input that
      keeps every other character as often as it occurs, and is the only
      punctuation-free subsequence that long: any other one is shorter. */
  lemma RemovePunctuationSpec(mess: string, punct: set<char>, r: string)
    ensures IsSubsequence(RemovePunctuation(mess, punct), mess)
    ensures forall c :: multiset(RemovePunctuation(mess, punct))[c] == if c in punct then 0 else multiset(mess)[c]
    ensures IsSubsequence(r, mess) && (forall i :: 0 <= i < |r| ==> r[i] !in punct) ==>
              |r| <= |RemovePunctuation(mess, punct)|
    ensures (IsSubsequence(r, mess) && (forall i :: 0 <= i < |r| ==> r[i] !in punct) &&
             |r| >= |RemovePunctuation(mess, punct)|) ==> r == RemovePunctuation(mess, punct)
  {
    var keep := NotPunctuation(punct);
    FilterIsSubsequence(mess, keep);
    FilterCounts(mess, keep);
    if IsSubsequence(r, mess) && (forall i :: 0 <= i < |r| ==> r[i] !in punct) {
      FilterIsLongest(r, mess, keep);
      if |r| >= |RemovePunctuation(mess, punct)| {
        FilterIsUnique(r, mess, keep);
      }
    }
  }

  /** Removing punctuation a second time changes nothing. */
  lemma RemovePunctuationIdempotent(mess: string, punct: set<char>)
    ensures RemovePunctuation(RemovePunctuation(mess, punct), punct) == RemovePunctuation(mess, punct)
  {
    FilterIdempotent(mess, NotPunctuation(punct));
  }

  /** Exactly the stopword tokens are removed and nothing else: the result is
      an order-preserving subsequence of the tokens, every non-stopword token
      survives as often as it occurs, and any stopword-free subsequence of the
      same length is the result itself. */
  lemma RemoveStopwordsSpec(words: seq<string>, stopwords: set<string>, r: seq<string>)
    ensures IsSubsequence(RemoveStopwords(words, stopwords), words)
    ensures forall w :: multiset(RemoveStopwords(words, stopwords))[w] ==
              if Lower(w) in stopwords then 0 else multiset(words)[w]
    ensures (IsSubsequence(r, words) && (forall i :: 0 <= i < |r| ==> Lower(r[i]) !in stopwords) &&
             |r| >= |RemoveStopwords(words, stopwords)|) ==> r == RemoveStopwords(words, stopwords)
  {
    var keep := NotStopword(stopwords);
    FilterIsSubsequence(words, keep);
    FilterCounts(words, keep);
    if IsSubsequence(r, words) && (forall i :: 0 <= i < |r| ==> Lower(r[i]) !in stopwords)
       && |r| >= |RemoveStopwords(words, stopwords)| {
      FilterIsLongest(r, words, keep);
      FilterIsUnique(r, words, keep);
    }
  }

  /** The cleaned tokens are an order-preserving subsequence of the
      whitespace-split of the depunctuated text, and that split, glued back
      together, is the depunctuated text without its whitespace. */
  lemma CleanIsSubsequence(mess: string, punct: set<char>, stopwords: set<string>)
    ensures IsSubsequence(Clean(mess, punct, stopwords), Split(RemovePunctuation(mess, punct)))
    ensures Concat(Split(RemovePunctuation(mess, punct))) ==
            Filter(RemovePunctuation(mess, punct), NotSpace)
  {
    var words := Split(RemovePunctuation(mess, punct));
    FilterIsSubsequence(words, NotStopword(stopwords));
    SplitKeepsText(RemovePunctuation(mess, punct));
  }

  /** With an empty stopword list, cleaning is just depunctuate-then-split. */
  lemma CleanWithoutStopwords(mess: string, punct: set<char>)
    ensures Clean(mess, punct, {}) == Split(RemovePunctuation(mess, punct))
  {
    var words := Split(RemovePunctuation(mess, punct));
    FilterKeepsAll(words, NotStopword({}));
  }

  /** Cleaning a text that is already clean, with the same parameters, gives
      the same tokens back: `text_process` is idempotent through `" ".join`,
      provided the space itself is not counted as punctuation (it is not in
      Python's `string.punctuation`). */
  lemma CleanIdempotent(mess: string, punct: set<char>, stopwords: set<string>)
    requires ' ' !in punct
    ensures Clean(JoinWords(Clean(mess, punct, stopwords)), punct, stopwords) == Clean(mess, punct, stopwords)
  {
    var tokens := Clean(mess, punct, stopwords);
    var joined := JoinWords(tokens);
    JoinWordsChars(tokens, punct);
    FilterKeepsAll(joined, NotPunctuation(punct));
    forall i | 0 <= i < |tokens| ensures IsWord(tokens[i]) {
      assert tokens[i] in tokens;
    }
    SplitJoinWords(tokens);
    forall i | 0 <= i < |tokens| ensures NotStopword(stopwords)(tokens[i]) {
      assert tokens[i] in tokens;
    }
    FilterKeepsAll(tokens, NotStopword(stopwords));
  }

  /** With Python's own punctuation set, cleaning the space-joined result
      again gives the same tokens. */
  lemma CleanPythonIdempotent(mess: string, stopwords: set<string>)
    ensures var p := PythonPunctuation();
            Clean(JoinWords(Clean(mess, p, stopwords)), p, stopwords) == Clean(mess, p, stopwords)
  {
    var p := PythonPunctuation();
    assert IsSpace(' ');
    CleanIdempotent(mess, p, stopwords);
  }

  /** Joining with single spaces adds no character other than the space. */
  lemma {:induction false} JoinWordsChars(words: seq<string>, punct: set<char>)
    requires ' ' !in punct
    requires forall w, c :: w in words && c in w ==> c !in punct
    ensures forall i :: 0 <= i < |JoinWords(words)| ==> JoinWords(words)[i] !in punct
    decreases |words|
  {
    if |words| > 1 {
      JoinWordsChars(words[1..], punct);
      var w := words[0];
      var j := JoinWords(words);
      forall i | 0 <= i < |j| ensures j[i] !in punct {
        if i < |w| {
          assert j[i] == w[i] && w[i] in w;
        }
      }
    } else if |words| == 1 {
      forall i | 0 <= i < |words[0]| ensures words[0][i] !in punct {
        assert words[0][i] in words[0];
      }
    }
  }

  /** "Hi, the cat!" with "the" a stopword cleans to ["Hi", "cat"]. */
  lemma CleanExample()
    ensures Clean("Hi, the cat!", {',', '!'}, {"the"}) == ["Hi", "cat"]
  {
    ExampleDepunctuated();
    ExampleSplit();
    ExampleStopwords();
  }

  lemma ExampleDepunctuated()
    ensures RemovePunctuation("Hi, the cat!", {',', '!'}) == "Hi the cat"
  {
    var keep := NotPunctuation({',', '!'});
    var a, b, c, d := "Hi", ",", " the cat", "!";
    assert "Hi, the cat!" == a + b + c + d;
    assert a + c == "Hi the cat";
    assert Filter(a, keep) == a by {
      assert forall i :: 0 <= i < |a| ==> keep(a[i]);
      FilterKeepsAll(a, keep);
    }
    assert Filter(c, keep) == c by {
      assert forall i :: 0 <= i < |c| ==> keep(c[i]);
      FilterKeepsAll(c, keep);
    }
    assert Filter(b, keep) == [] && Filter(d, keep) == [] by {
      assert !keep(',') && !keep('!');
    }
    assert Filter(a + b, keep) == a by {
      FilterAppend(a, b, keep);
    }
    assert Filter(a + b + c, keep) == a + c by {
      FilterAppend(a + b, c, keep);
    }
    assert Filter(a + b + c + d, keep) == a + c by {
      FilterAppend(a + b + c, d, keep);
    }
  }

  lemma ExampleSplit()
    ensures Split("Hi the cat") == ["Hi", "the", "cat"]
  {
    SplitJoinWords(["Hi", "the", "cat"]);
    assert JoinWords(["Hi", "the", "cat"]) == "Hi the cat";
  }

  lemma ExampleStopwords()
    ensures RemoveStopwords(["Hi", "the", "cat"], {"the"}) == ["Hi", "cat"]
  {
    var words := ["Hi", "the", "cat"];
    assert Lower("Hi") == "hi" && Lower("the") == "the" && Lower("cat") == "cat";
  }
}
