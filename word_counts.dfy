/** Per-character word frequencies: the dialog of the six main characters,
    cleaned of stage directions, contractions and punctuation, split into
    lowercase words, counted without stopwords, and cut below a minimum
    frequency. */
module WordCounts {
  import opened Transcript

  datatype Option<T> = None | Some(value: T)

  /** The only speakers whose words are counted. */
  const PonyNames: seq<string> := ["twilight sparkle", "applejack", "rarity", "pinkie pie", "rainbow dash", "fluttershy"]

  /** Words said fewer times than this by a character are dropped. */
  const ThresholdFrequency: nat := 5

  /** Each of these becomes a space. */
  const PunctuationToReplace: string := "()[],-.?!:;#&"

  // ---------------------------------------------------------------------
  // re.sub("(\[.*?\])|(\w*'\w*)", '', dialog) as a left-to-right scanner

  /** The regular-expression class `\w`. */
  predicate IsWordChar(c: char)
    ensures IsWordChar(c) ==> !IsSpace(c) && c != '\'' && c != '[' && c != ']' && c !in PunctuationToReplace
  {
    'a' <= c <= 'z' || 'A' <= c <= 'Z' || '0' <= c <= '9' || c == '_'
  }

  /** The end of the run of word characters that starts at `i`. */
  function WordRunEnd(s: string, i: nat): (k: nat)
    requires i <= |s|
    ensures i <= k <= |s|
    ensures forall j :: i <= j < k ==> IsWordChar(s[j])
    ensures k < |s| ==> !IsWordChar(s[k])
    decreases |s| - i
  {
    if i == |s| || !IsWordChar(s[i]) then i else WordRunEnd(s, i + 1)
  }

  /** Where `.*?\]` ends when tried at `i`: the first `]` from `i` on,
      unless a newline (which `.` does not match) comes first. */
  function CueEnd(s: string, i: nat): (r: Option<nat>)
    requires i <= |s|
    ensures r.Some? ==> i <= r.value < |s| && s[r.value] == ']'
                        && forall j :: i <= j < r.value ==> s[j] != '\n' && s[j] != ']'
    ensures r.None? ==> forall j :: i <= j < |s| && s[j] == ']' ==> exists k :: i <= k < j && s[k] == '\n'
    decreases |s| - i
  {
    if i == |s| then None
    else if s[i] == ']' then Some(i)
    else if s[i] == '\n' then None
    else CueEnd(s, i + 1)
  }

  /** The substitution: at each position, first try a stage cue `[...]`
      ending at the first `]`, then a run of word characters followed by an
      apostrophe and another run of word characters; remove a match, or
      keep the character and move on. No apostrophe survives, and the
      result is never longer. */
  function StripCuesAndContractions(s: string): (r: string)
    ensures |r| <= |s|
    ensures '\'' !in r
    decreases |s|
  {
    if s == [] then []
    else
      var cue := if s[0] == '[' then CueEnd(s, 1) else None;
      if cue.Some? then StripCuesAndContractions(s[cue.value + 1..])
      else
        var k := WordRunEnd(s, 0);
        if k < |s| && s[k] == '\'' then StripCuesAndContractions(s[WordRunEnd(s, k + 1)..])
        else [s[0]] + StripCuesAndContractions(s[1..])
  }

  /** No `[` is followed by a `]` on the same line: nothing the cue pattern
      could match. */
  ghost predicate NoCue(t: string) {
    forall i, j :: 0 <= i < j < |t| && t[i] == '[' && t[j] == ']' ==> exists k :: i < k < j && t[k] == '\n'
  }

  /** Every `]` comes after a newline. */
  ghost predicate CloseAfterNewline(t: string) {
    forall j :: 0 <= j < |t| && t[j] == ']' ==> exists k :: 0 <= k < j && t[k] == '\n'
  }

  /** Dropping a prefix without newlines keeps every `]` after a newline. */
  lemma CloseAfterNewlineSuffix(s: string, m: nat)
    requires CloseAfterNewline(s)
    requires m <= |s|
    requires forall j :: 0 <= j < m ==> s[j] != '\n'
    ensures CloseAfterNewline(s[m..])
  {
    forall j | 0 <= j < |s[m..]| && s[m..][j] == ']'
      ensures exists k :: 0 <= k < j && s[m..][k] == '\n'
    {
      assert s[j + m] == ']';
      var n :| 0 <= n < j + m && s[n] == '\n';
      assert s[m..][n - m] == '\n';
    }
  }

  /** Putting a character other than `]` in front keeps every `]` after a
      newline; a newline in front puts every `]` after one. */
  lemma CloseAfterNewlinePrepend(c: char, rest: string)
    requires c != ']'
    requires c == '\n' || CloseAfterNewline(rest)
    ensures CloseAfterNewline([c] + rest)
  {
    var r := [c] + rest;
    forall j | 0 <= j < |r| && r[j] == ']'
      ensures exists k :: 0 <= k < j && r[k] == '\n'
    {
      if c == '\n' {
        assert r[0] == '\n';
      } else {
        assert rest[j - 1] == ']';
        var n :| 0 <= n < j - 1 && rest[n] == '\n';
        assert r[n + 1] == '\n';
      }
    }
  }

  lemma {:induction false} CloseAfterNewlineKept(s: string)
    requires CloseAfterNewline(s)
    ensures CloseAfterNewline(StripCuesAndContractions(s))
    decreases |s|
  {
    if s != [] {
      var cue := if s[0] == '[' then CueEnd(s, 1) else None;
      if cue.Some? {
        assert false;
      }
      var k := WordRunEnd(s, 0);
      if k < |s| && s[k] == '\'' {
        var m := WordRunEnd(s, k + 1);
        CloseAfterNewlineSuffix(s, m);
        CloseAfterNewlineKept(s[m..]);
      } else {
        assert s[0] != ']';
        if s[0] != '\n' {
          CloseAfterNewlineSuffix(s, 1);
          CloseAfterNewlineKept(s[1..]);
        }
        CloseAfterNewlinePrepend(s[0], StripCuesAndContractions(s[1..]));
      }
    }
  }

  /** An unmatched `[` at the front: every later `]` comes after a newline. */
  lemma UnclosedCue(s: string)
    requires |s| > 0 && CueEnd(s, 1).None?
    ensures CloseAfterNewline(s[1..])
  {
    forall j | 0 <= j < |s[1..]| && s[1..][j] == ']'
      ensures exists k :: 0 <= k < j && s[1..][k] == '\n'
    {
      assert s[j + 1] == ']';
      var n :| 1 <= n < j + 1 && s[n] == '\n';
      assert s[1..][n - 1] == '\n';
    }
  }

  /** Putting a character in front keeps the text free of cues, provided
      a `[` in front is followed by no `]` before a newline. */
  lemma NoCuePrepend(c: char, rest: string)
    requires NoCue(rest)
    requires c == '[' ==> CloseAfterNewline(rest)
    ensures NoCue([c] + rest)
  {
    var r := [c] + rest;
    forall i, j | 0 <= i < j < |r| && r[i] == '[' && r[j] == ']'
      ensures exists k :: i < k < j && r[k] == '\n'
    {
      assert rest[j - 1] == ']';
      if i == 0 {
        var n :| 0 <= n < j - 1 && rest[n] == '\n';
        assert r[n + 1] == '\n';
      } else {
        assert rest[i - 1] == '[';
        var n :| i - 1 < n < j - 1 && rest[n] == '\n';
        assert r[n + 1] == '\n';
      }
    }
  }

  /** The substitution leaves no stage cue behind. */
  lemma {:induction false} NoCueSurvives(s: string)
    ensures NoCue(StripCuesAndContractions(s))
    decreases |s|
  {
    if s != [] {
      var cue := if s[0] == '[' then CueEnd(s, 1) else None;
      if cue.Some? {
        NoCueSurvives(s[cue.value + 1..]);
      } else {
        var k := WordRunEnd(s, 0);
        if k < |s| && s[k] == '\'' {
          NoCueSurvives(s[WordRunEnd(s, k + 1)..]);
        } else {
          NoCueSurvives(s[1..]);
          if s[0] == '[' {
            UnclosedCue(s);
            CloseAfterNewlineKept(s[1..]);
          }
          NoCuePrepend(s[0], StripCuesAndContractions(s[1..]));
        }
      }
    }
  }

  /** Text with no apostrophe and no stage cue is left as it is. */
  lemma {:induction false} StripLeavesCleanText(t: string)
    requires '\'' !in t && NoCue(t)
    ensures StripCuesAndContractions(t) == t
    decreases |t|
  {
    if t != [] {
      var cue := if t[0] == '[' then CueEnd(t, 1) else None;
      if cue.Some? {
        assert false;
      }
      var k := WordRunEnd(t, 0);
      if k < |t| && t[k] == '\'' {
        assert false;
      }
      assert NoCue(t[1..]) by {
        forall i, j | 0 <= i < j < |t[1..]| && t[1..][i] == '[' && t[1..][j] == ']'
          ensures exists k' :: i < k' < j && t[1..][k'] == '\n'
        {
          assert t[i + 1] == '[' && t[j + 1] == ']';
          var n :| i + 1 < n < j + 1 && t[n] == '\n';
          assert t[1..][n - 1] == '\n';
        }
      }
      StripLeavesCleanText(t[1..]);
      assert t == [t[0]] + t[1..];
    }
  }

  /** A second pass of the substitution finds nothing to remove. */
  lemma StripIsIdempotent(s: string)
    ensures StripCuesAndContractions(StripCuesAndContractions(s)) == StripCuesAndContractions(s)
  {
    NoCueSurvives(s);
    StripLeavesCleanText(StripCuesAndContractions(s));
  }

  /** A stage cue and a contraction disappear, the contraction together
      with the word characters around its apostrophe. */
  lemma StripExample()
    ensures StripCuesAndContractions("[a]b'c d") == " d"
  {
    StripContractionExample();
    assert CueEnd("[a]b'c d", 1) == Some(2);
    assert "[a]b'c d"[3..] == "b'c d";
  }

  /** The contraction `b'c` goes as a whole; ` d` stays. */
  lemma StripContractionExample()
    ensures StripCuesAndContractions("b'c d") == " d"
  {
    StripPlainExample();
    assert WordRunEnd("b'c d", 0) == 1;
    assert WordRunEnd("b'c d", 2) == 3;
    assert "b'c d"[3..] == " d";
  }

  /** Text with no cue and no apostrophe, character by character. */
  lemma StripPlainExample()
    ensures StripCuesAndContractions(" d") == " d"
  {
    assert StripCuesAndContractions("d") == "d" by {
      assert WordRunEnd("d", 0) == 1;
      assert "d"[1..] == [];
    }
    assert WordRunEnd(" d", 0) == 0;
    assert " d"[1..] == "d";
  }

  /** `.` does not match a newline, so a cue broken across lines stays. */
  lemma StripKeepsBrokenCue()
    ensures StripCuesAndContractions("[a\n]") == "[a\n]"
  {
    assert StripCuesAndContractions("]") == "]" by {
      assert WordRunEnd("]", 0) == 0;
      assert "]"[1..] == [];
    }
    assert StripCuesAndContractions("\n]") == "\n]" by {
      assert WordRunEnd("\n]", 0) == 0;
      assert "\n]"[1..] == "]";
    }
    assert StripCuesAndContractions("a\n]") == "a\n]" by {
      assert WordRunEnd("a\n]", 0) == 1;
      assert "a\n]"[1..] == "\n]";
    }
    assert CueEnd("[a\n]", 1) == None;
    assert WordRunEnd("[a\n]", 0) == 0;
    assert "[a\n]"[1..] == "a\n]";
  }

  /** Text without `[` and without an apostrophe, ending outside a word,
      is kept in front of whatever the rest becomes: the substitution
      deletes nothing but the cues and contractions it matches. */
  lemma {:induction false} StripKeepsPrefix(a: string, b: string)
    requires '[' !in a && '\'' !in a
    requires a == [] || !IsWordChar(a[|a| - 1])
    ensures StripCuesAndContractions(a + b) == a + StripCuesAndContractions(b)
    decreases |a|
  {
    if a != [] {
      var s := a + b;
      assert s[0] == a[0];
      var k := WordRunEnd(s, 0);
      assert s[|a| - 1] == a[|a| - 1];
      assert k < |a|;
      assert s[k] == a[k];
      assert StripCuesAndContractions(s) == [a[0]] + StripCuesAndContractions(s[1..]);
      DropOfAppend(a, b, 1);
      if a[1..] != [] {
        assert a[1..][|a[1..]| - 1] == a[|a| - 1];
      }
      StripKeepsPrefix(a[1..], b);
      calc {
        StripCuesAndContractions(s);
        [a[0]] + StripCuesAndContractions(a[1..] + b);
        [a[0]] + (a[1..] + StripCuesAndContractions(b));
        ([a[0]] + a[1..]) + StripCuesAndContractions(b);
        { assert [a[0]] + a[1..] == a; }
        a + StripCuesAndContractions(b);
      }
    } else {
      assert a + b == b;
    }
  }

  /** `r` can be obtained from `s` by deleting characters. */
  ghost predicate Subsequence(r: string, s: string)
    decreases |s|
  {
    if r == [] then true
    else if s == [] then false
    else (r[0] == s[0] && Subsequence(r[1..], s[1..])) || Subsequence(r, s[1..])
  }

  /** Deleting a prefix of `s` first still leaves a deletion of `s`. */
  lemma {:induction false} SubsequenceOfSuffix(r: string, s: string, m: nat)
    requires m <= |s|
    requires Subsequence(r, s[m..])
    ensures Subsequence(r, s)
    decreases m
  {
    if 0 < m && r != [] {
      assert s[1..][m - 1..] == s[m..];
      SubsequenceOfSuffix(r, s[1..], m - 1);
    }
  }

  /** The substitution only deletes characters: what is left is in the
      order of the input. */
  lemma {:induction false} StripIsSubsequence(s: string)
    ensures Subsequence(StripCuesAndContractions(s), s)
    decreases |s|
  {
    if s != [] {
      var cue := if s[0] == '[' then CueEnd(s, 1) else None;
      var k := WordRunEnd(s, 0);
      if cue.Some? {
        StripIsSubsequence(s[cue.value + 1..]);
        SubsequenceOfSuffix(StripCuesAndContractions(s), s, cue.value + 1);
      } else if k < |s| && s[k] == '\'' {
        var m := WordRunEnd(s, k + 1);
        StripIsSubsequence(s[m..]);
        SubsequenceOfSuffix(StripCuesAndContractions(s), s, m);
      } else {
        StripIsSubsequence(s[1..]);
        var r := StripCuesAndContractions(s);
        assert r == [s[0]] + StripCuesAndContractions(s[1..]);
        assert r[1..] == StripCuesAndContractions(s[1..]);
      }
    }
  }

  // ---------------------------------------------------------------------
  // remove_punctuation

  /** What `remove_punctuation` returns: the substitution's result with each
      punctuation character turned into a space. */
  function Depunctuated(dialog: string): (r: string)
    ensures |r| == |StripCuesAndContractions(dialog)|
    ensures forall i :: 0 <= i < |r| ==> r[i] == ' ' || r[i] == StripCuesAndContractions(dialog)[i]
  {
    var t := StripCuesAndContractions(dialog);
    seq(|t|, i requires 0 <= i < |t| => if t[i] in PunctuationToReplace then ' ' else t[i])
  }

  /** The result holds no punctuation character and no apostrophe, and is
      never longer than the dialog. */
  lemma DepunctuatedIsClean(dialog: string)
    ensures |Depunctuated(dialog)| <= |dialog|
    ensures forall i :: 0 <= i < |Depunctuated(dialog)| ==>
              Depunctuated(dialog)[i] !in PunctuationToReplace && Depunctuated(dialog)[i] != '\''
  {
    var t := StripCuesAndContractions(dialog);
    forall i | 0 <= i < |t|
      ensures Depunctuated(dialog)[i] != '\''
    {
      assert t[i] in t;
    }
  }

  /** Cleaning cleaned dialog changes nothing. */
  lemma DepunctuatedIsIdempotent(dialog: string)
    ensures Depunctuated(Depunctuated(dialog)) == Depunctuated(dialog)
  {
    var r := Depunctuated(dialog);
    DepunctuatedIsClean(dialog);
    assert '\'' !in r;
    assert NoCue(r) by {
      forall i | 0 <= i < |r|
        ensures r[i] != '['
      {
        assert r[i] !in PunctuationToReplace;
      }
    }
    StripLeavesCleanText(r);
  }

  /** `remove_punctuation`: the substitution, then one `replace` per
      punctuation character that is present. */
  method RemovePunctuation(dialog: string) returns (r: string)
    ensures r == Depunctuated(dialog)
  {
    var stripped := StripCuesAndContractions(dialog);
    r := stripped;
    for k := 0 to |PunctuationToReplace|
      invariant |r| == |stripped|
      invariant forall i :: 0 <= i < |r| ==>
                  r[i] == if stripped[i] in PunctuationToReplace[..k] then ' ' else stripped[i]
    {
      var c := PunctuationToReplace[k];
      assert PunctuationToReplace[..k + 1] == PunctuationToReplace[..k] + [c];
      if c in r {
        r := ReplaceChar(r, c, ' ');
      } else {
        forall i | 0 <= i < |r|
          ensures r[i] == if stripped[i] in PunctuationToReplace[..k + 1] then ' ' else stripped[i]
        {
          assert r[i] in r;
        }
      }
    }
    assert PunctuationToReplace[..|PunctuationToReplace|] == PunctuationToReplace;
  }

  // ---------------------------------------------------------------------
  // count_word_freq_per_pony, stated on the rows

  /** The words of one line: cleaned, lowercased, split on whitespace.
      Each is a non-empty run of non-whitespace without upper-case letters. */
  function Words(dialog: string): (words: seq<string>)
    ensures forall k :: 0 <= k < |words| ==> IsToken(words[k])
    ensures forall k, j :: 0 <= k < |words| && 0 <= j < |words[k]| ==> !IsUpper(words[k][j])
  {
    LowerIsLowercase(Depunctuated(dialog));
    SplitKeepsLowercase(Lower(Depunctuated(dialog)));
    Split(Lower(Depunctuated(dialog)))
  }

  /** All the words `pony` says, row after row. */
  function PonyWords(rows: seq<Row>, pony: string): seq<string> {
    if rows == [] then []
    else
      var last := rows[|rows| - 1];
      PonyWords(rows[..|rows| - 1], pony) + (if Lower(last.pony) == pony then Words(last.dialog) else [])
  }

  /** How often `pony` says `word` over all rows. */
  function Tally(rows: seq<Row>, pony: string, word: string): nat {
    multiset(PonyWords(rows, pony))[word]
  }

  /** The main characters that have at least one row. */
  function SpeakingPonies(rows: seq<Row>): set<string> {
    if rows == [] then {}
    else
      var p := Lower(rows[|rows| - 1].pony);
      SpeakingPonies(rows[..|rows| - 1]) + (if p in PonyNames then {p} else {})
  }

  /** A name is a speaking pony exactly when it is one of the six and some
      row's lowercased speaker is that name. */
  lemma {:induction false} SpeakingPoniesAreListedSpeakers(rows: seq<Row>, p: string)
    ensures p in SpeakingPonies(rows) <==> p in PonyNames && exists i :: 0 <= i < |rows| && Lower(rows[i].pony) == p
  {
    if rows != [] {
      var init := rows[..|rows| - 1];
      SpeakingPoniesAreListedSpeakers(init, p);
      if p in SpeakingPonies(init) {
        var i :| 0 <= i < |init| && Lower(init[i].pony) == p;
        assert rows[i] == init[i];
      }
      if exists i :: 0 <= i < |rows| && Lower(rows[i].pony) == p {
        var i :| 0 <= i < |rows| && Lower(rows[i].pony) == p;
        if i < |init| {
          assert init[i] == rows[i];
        }
      }
    }
  }

  /** A row whose speaker is not one of the six changes neither the set of
      speaking characters nor any of their counts. */
  lemma UnlistedRowChangesNothing(rows: seq<Row>, row: Row, p: string, w: string)
    requires Lower(row.pony) !in PonyNames
    requires p in PonyNames
    ensures SpeakingPonies(rows + [row]) == SpeakingPonies(rows)
    ensures Tally(rows + [row], p, w) == Tally(rows, p, w)
  {
    assert (rows + [row])[..|rows|] == rows;
  }

  /** A main character with no row yet has said nothing. */
  lemma {:induction false} SilentPonySaysNothing(rows: seq<Row>, p: string)
    requires p in PonyNames && p !in SpeakingPonies(rows)
    ensures PonyWords(rows, p) == []
  {
    if rows != [] {
      SilentPonySaysNothing(rows[..|rows| - 1], p);
    }
  }

  /** Every word that is counted is a non-empty, whitespace-free,
      lowercase token. */
  lemma {:induction false} TalliedWordsAreTokens(rows: seq<Row>, p: string, w: string)
    requires Tally(rows, p, w) > 0
    ensures IsToken(w)
    ensures forall j :: 0 <= j < |w| ==> !IsUpper(w[j])
  {
    var last := rows[|rows| - 1];
    var init := rows[..|rows| - 1];
    var extra := if Lower(last.pony) == p then Words(last.dialog) else [];
    assert multiset(PonyWords(rows, p)) == multiset(PonyWords(init, p)) + multiset(extra);
    if Tally(init, p, w) > 0 {
      TalliedWordsAreTokens(init, p, w);
    } else {
      assert w in extra;
      var k :| 0 <= k < |extra| && extra[k] == w;
    }
  }

  // ---------------------------------------------------------------------
  // Adding one line's counts

  /** `table[w]` with a `defaultdict(int)`: 0 when missing. */
  function Get(table: map<string, nat>, w: string): (n: nat)
    ensures w in table ==> n == table[w]
    ensures w !in table ==> n == 0
  {
    if w in table then table[w] else 0
  }

  /** `Counter(words)`: each distinct word with its number of occurrences. */
  function Counter(words: seq<string>): (counter: map<string, nat>)
    ensures forall w :: w in counter <==> w in words
    ensures forall w :: w in counter ==> 1 <= counter[w] == multiset(words)[w]
  {
    map w | w in multiset(words) :: multiset(words)[w]
  }

  /** The table after the words of a line that are not stopwords are added:
      every word keeps its count plus its occurrences in the line. */
  function Accumulated(table: map<string, nat>, words: seq<string>, stopwords: set<string>): map<string, nat> {
    map w | w in table.Keys + (set x | x in words && x !in stopwords)
          :: Get(table, w) + (if w in stopwords then 0 else multiset(words)[w])
  }

  /** The same table built one token at a time. */
  function AddTokens(table: map<string, nat>, words: seq<string>, stopwords: set<string>): map<string, nat>
    decreases |words|
  {
    if words == [] then table
    else AddTokens(CountFirst(table, words, stopwords), words[1..], stopwords)
  }

  /** A line without words leaves the table as it is. */
  lemma AccumulatedNothing(table: map<string, nat>, stopwords: set<string>)
    ensures Accumulated(table, [], stopwords) == table
  {
    assert Accumulated(table, [], stopwords).Keys == table.Keys;
  }

  /** The first token counted into the table (unless it is a stopword). */
  function CountFirst(table: map<string, nat>, words: seq<string>, stopwords: set<string>): map<string, nat>
    requires words != []
  {
    if words[0] in stopwords then table else table[words[0] := Get(table, words[0]) + 1]
  }

  lemma AccumulatedStepKeys(table: map<string, nat>, words: seq<string>, stopwords: set<string>)
    requires words != []
    ensures Accumulated(CountFirst(table, words, stopwords), words[1..], stopwords).Keys
            == Accumulated(table, words, stopwords).Keys
  {
    var w, rest := words[0], words[1..];
    assert words == [w] + rest;
    forall x
      ensures x in Accumulated(CountFirst(table, words, stopwords), rest, stopwords)
              <==> x in Accumulated(table, words, stopwords)
    {
      assert x in words <==> x == w || x in rest;
    }
  }

  lemma AccumulatedStepValues(table: map<string, nat>, words: seq<string>, stopwords: set<string>, x: string)
    requires words != []
    requires x in Accumulated(table, words, stopwords)
    requires x in Accumulated(CountFirst(table, words, stopwords), words[1..], stopwords)
    ensures Accumulated(CountFirst(table, words, stopwords), words[1..], stopwords)[x]
            == Accumulated(table, words, stopwords)[x]
  {
    var w, rest := words[0], words[1..];
    assert words == [w] + rest;
    assert multiset(words)[x] == multiset(rest)[x] + (if x == w then 1 else 0);
  }

  /** Counting the first token into the table and then adding the rest
      of the line gives the same table as adding the whole line. */
  lemma AccumulatedStep(table: map<string, nat>, words: seq<string>, stopwords: set<string>)
    requires words != []
    ensures Accumulated(CountFirst(table, words, stopwords), words[1..], stopwords)
            == Accumulated(table, words, stopwords)
  {
    var lhs, rhs := Accumulated(CountFirst(table, words, stopwords), words[1..], stopwords), Accumulated(table, words, stopwords);
    AccumulatedStepKeys(table, words, stopwords);
    forall x | x in lhs
      ensures lhs[x] == rhs[x]
    {
      AccumulatedStepValues(table, words, stopwords, x);
    }
  }

  /** Adding a `Counter`'s totals is the same as counting token by token. */
  lemma {:induction false} CounterMatchesTokenCounting(table: map<string, nat>, words: seq<string>, stopwords: set<string>)
    ensures AddTokens(table, words, stopwords) == Accumulated(table, words, stopwords)
    decreases |words|
  {
    if words == [] {
      AccumulatedNothing(table, stopwords);
    } else {
      CounterMatchesTokenCounting(CountFirst(table, words, stopwords), words[1..], stopwords);
      AccumulatedStep(table, words, stopwords);
    }
  }

  /** One row of the count: count the line's words with a `Counter`, then add each
      word that is not a stopword to the character's table. */
  method AddDialogCounts(table: map<string, nat>, words: seq<string>, stopwords: set<string>)
    returns (updated: map<string, nat>)
    ensures updated == Accumulated(table, words, stopwords)
  {
    var counter := Counter(words);
    updated := table;
    var pending := counter.Keys;
    while pending != {}
      invariant pending <= counter.Keys
      invariant forall w :: w in updated <==> w in table || (w in counter && w !in pending && w !in stopwords)
      invariant forall w :: w in updated ==>
                  updated[w] == Get(table, w) + (if w in counter && w !in pending && w !in stopwords then counter[w] else 0)
      decreases pending
    {
      var w :| w in pending;
      if w !in stopwords {
        updated := updated[w := Get(updated, w) + counter[w]];
      }
      pending := pending - {w};
    }
    var spec := Accumulated(table, words, stopwords);
    assert updated.Keys == spec.Keys;
  }

  /** The threshold pass over one table: delete every word whose count is below the threshold.
      Nothing is added and every kept count is unchanged. */
  method DropRare(table: map<string, nat>) returns (kept: map<string, nat>)
    ensures forall w :: w in kept <==> w in table && table[w] >= ThresholdFrequency
    ensures forall w :: w in kept ==> kept[w] == table[w]
  {
    kept := table;
    var pending := table.Keys;
    while pending != {}
      invariant pending <= table.Keys
      invariant forall w :: w in kept <==> w in table && (w in pending || table[w] >= ThresholdFrequency)
      invariant forall w :: w in kept ==> kept[w] == table[w]
      decreases pending
    {
      var w :| w in pending;
      if table[w] < ThresholdFrequency {
        kept := kept - {w};
      }
      pending := pending - {w};
    }
  }

  // ---------------------------------------------------------------------
  // The row loop

  /** `table` holds exactly the words of `said` that are not stopwords and
      occur at least `least` times, each with its number of occurrences. */
  ghost predicate Counts(table: map<string, nat>, said: multiset<string>, stopwords: set<string>, least: nat) {
    && (forall w :: w in table <==> w !in stopwords && said[w] >= least)
    && (forall w :: w in table ==> table[w] == said[w])
  }

  /** `table` holds exactly the words that are not stopwords and that
      `pony` says at least `least` times, each with that number. */
  ghost predicate Tabulates(table: map<string, nat>, rows: seq<Row>, pony: string, stopwords: set<string>, least: nat) {
    Counts(table, multiset(PonyWords(rows, pony)), stopwords, least)
  }

  /** Adding a line to a table of what was said before gives the table of
      both together. */
  lemma CountsAccumulated(table: map<string, nat>, said: multiset<string>, words: seq<string>, stopwords: set<string>)
    requires Counts(table, said, stopwords, 1)
    ensures Counts(Accumulated(table, words, stopwords), said + multiset(words), stopwords, 1)
  {
  }

  lemma TabulatesSpeaker(table: map<string, nat>, rows: seq<Row>, i: nat, stopwords: set<string>)
    requires i < |rows|
    requires Tabulates(table, rows[..i], Lower(rows[i].pony), stopwords, 1)
    ensures Tabulates(Accumulated(table, Words(rows[i].dialog), stopwords), rows[..i + 1], Lower(rows[i].pony), stopwords, 1)
  {
    var p := Lower(rows[i].pony);
    assert rows[..i + 1][..i] == rows[..i];
    assert PonyWords(rows[..i + 1], p) == PonyWords(rows[..i], p) + Words(rows[i].dialog);
    CountsAccumulated(table, multiset(PonyWords(rows[..i], p)), Words(rows[i].dialog), stopwords);
  }

  lemma TabulatesOther(table: map<string, nat>, rows: seq<Row>, i: nat, q: string, stopwords: set<string>)
    requires i < |rows|
    requires q != Lower(rows[i].pony)
    requires Tabulates(table, rows[..i], q, stopwords, 1)
    ensures Tabulates(table, rows[..i + 1], q, stopwords, 1)
  {
    assert rows[..i + 1][..i] == rows[..i];
    assert PonyWords(rows[..i + 1], q) == PonyWords(rows[..i], q);
  }

  /** The state of the row loop after the first `i` rows: one table per
      main character seen so far, each counting what that character said. */
  ghost predicate TalliedUpTo(counts: map<string, map<string, nat>>, rows: seq<Row>, i: nat, stopwords: set<string>)
    requires i <= |rows|
  {
    && counts.Keys == SpeakingPonies(rows[..i])
    && (forall p :: p in counts ==> p in PonyNames)
    && (forall p :: p in counts ==> Tabulates(counts[p], rows[..i], p, stopwords, 1))
  }

  lemma SpeakingPoniesStep(rows: seq<Row>, i: nat)
    requires i < |rows|
    ensures var p := Lower(rows[i].pony);
            SpeakingPonies(rows[..i + 1]) == SpeakingPonies(rows[..i]) + (if p in PonyNames then {p} else {})
  {
    assert rows[..i + 1][..i] == rows[..i];
  }

  lemma OtherTablesStep(counts: map<string, map<string, nat>>, rows: seq<Row>, i: nat, stopwords: set<string>)
    requires i < |rows|
    requires forall p :: p in counts ==> Tabulates(counts[p], rows[..i], p, stopwords, 1)
    ensures forall q :: q in counts && q != Lower(rows[i].pony) ==> Tabulates(counts[q], rows[..i + 1], q, stopwords, 1)
  {
    forall q | q in counts && q != Lower(rows[i].pony)
      ensures Tabulates(counts[q], rows[..i + 1], q, stopwords, 1)
    {
      TabulatesOther(counts[q], rows, i, q, stopwords);
    }
  }

  /** A row spoken by a main character adds its words to that character's
      table (created empty if needed) and to no other. */
  lemma TalliedSpeakerStep(counts: map<string, map<string, nat>>, rows: seq<Row>, i: nat, stopwords: set<string>)
    requires i < |rows| && TalliedUpTo(counts, rows, i, stopwords)
    requires Lower(rows[i].pony) in PonyNames
    ensures var pony := Lower(rows[i].pony);
            var start := if pony in counts then counts[pony] else map[];
            TalliedUpTo(counts[pony := Accumulated(start, Words(rows[i].dialog), stopwords)], rows, i + 1, stopwords)
  {
    var pony := Lower(rows[i].pony);
    var start := if pony in counts then counts[pony] else map[];
    if pony !in counts {
      SilentPonySaysNothing(rows[..i], pony);
      assert multiset(PonyWords(rows[..i], pony)) == multiset{};
    }
    assert Tabulates(start, rows[..i], pony, stopwords, 1);
    var table := Accumulated(start, Words(rows[i].dialog), stopwords);
    TabulatesSpeaker(start, rows, i, stopwords);
    SpeakingPoniesStep(rows, i);
    OtherTablesStep(counts, rows, i, stopwords);
    var counts' := counts[pony := table];
    assert counts'.Keys == SpeakingPonies(rows[..i + 1]);
    forall p | p in counts'
      ensures Tabulates(counts'[p], rows[..i + 1], p, stopwords, 1)
    {
      if p != pony {
        assert counts'[p] == counts[p];
      }
    }
  }

  /** A row spoken by anyone else changes no table. */
  lemma TalliedOtherStep(counts: map<string, map<string, nat>>, rows: seq<Row>, i: nat, stopwords: set<string>)
    requires i < |rows| && TalliedUpTo(counts, rows, i, stopwords)
    requires Lower(rows[i].pony) !in PonyNames
    ensures TalliedUpTo(counts, rows, i + 1, stopwords)
  {
    SpeakingPoniesStep(rows, i);
    OtherTablesStep(counts, rows, i, stopwords);
  }

  /** The row loop: afterwards there is one table per main
      character that has a row, counting every non-stopword that
      character says. */
  method TallyRows(rows: seq<Row>, stopwords: set<string>) returns (counts: map<string, map<string, nat>>)
    ensures counts.Keys == SpeakingPonies(rows)
    ensures forall p :: p in counts ==> Tabulates(counts[p], rows, p, stopwords, 1)
  {
    counts := map[];
    for i := 0 to |rows|
      invariant TalliedUpTo(counts, rows, i, stopwords)
    {
      var pony := Lower(rows[i].pony);
      if pony in PonyNames {
        TalliedSpeakerStep(counts, rows, i, stopwords);
        var start := if pony in counts then counts[pony] else map[];
        var dialog := RemovePunctuation(rows[i].dialog);
        var words := Split(Lower(dialog));
        var table := AddDialogCounts(start, words, stopwords);
        counts := counts[pony := table];
      } else {
        TalliedOtherStep(counts, rows, i, stopwords);
      }
    }
    assert rows[..|rows|] == rows;
  }

  /** The threshold pass: every character's table loses its rare words; the
      keys stay the same. */
  method ApplyThreshold(counts: map<string, map<string, nat>>) returns (freq: map<string, map<string, nat>>)
    ensures freq.Keys == counts.Keys
    ensures forall p, w :: p in freq ==> (w in freq[p] <==> w in counts[p] && counts[p][w] >= ThresholdFrequency)
    ensures forall p, w :: p in freq && w in freq[p] ==> freq[p][w] == counts[p][w]
  {
    freq := counts;
    var pending := counts.Keys;
    while pending != {}
      invariant pending <= counts.Keys
      invariant freq.Keys == counts.Keys
      invariant forall p, w :: p in freq && p !in pending ==>
                  (w in freq[p] <==> w in counts[p] && counts[p][w] >= ThresholdFrequency)
      invariant forall p, w :: p in freq && w in freq[p] ==> w in counts[p] && freq[p][w] == counts[p][w]
      invariant forall p :: p in pending ==> freq[p] == counts[p]
      decreases pending
    {
      var p :| p in pending;
      var kept := DropRare(counts[p]);
      freq := freq[p := kept];
      pending := pending - {p};
    }
  }

  /** `count_word_freq_per_pony` on the rows already read, with the
      stopwords given: one key per main character that has a row, and in
      each table exactly the non-stopwords that character says at least
      `ThresholdFrequency` times, each with its number of occurrences. */
  method CountWordFreqPerPony(rows: seq<Row>, stopwords: set<string>)
    returns (freq: map<string, map<string, nat>>)
    ensures freq.Keys == SpeakingPonies(rows)
    ensures forall p, w :: p in freq ==> (w in freq[p] <==> w !in stopwords && Tally(rows, p, w) >= ThresholdFrequency)
    ensures forall p, w :: p in freq && w in freq[p] ==> freq[p][w] == Tally(rows, p, w)
  {
    var counts := TallyRows(rows, stopwords);
    freq := ApplyThreshold(counts);
  }
}
