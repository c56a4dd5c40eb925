/** The rows of the show's script and the string operations that both
    scripts apply to them: `str.lower`, `str.split` with no separator,
    `sub in s` and `str.replace` of one character. */
module Transcript {

  /** One line of the script CSV: the episode title, the speaker (column
      `pony`) and what is said (column `dialog`). */
  datatype Row = Row(title: string, pony: string, dialog: string)

  // ---------------------------------------------------------------------
  // str.lower

  predicate IsUpper(c: char) {
    'A' <= c <= 'Z'
  }

  /** `str.lower` on one character; only ASCII letters are mapped. */
  function LowerChar(c: char): char {
    if IsUpper(c) then (c as int + 32) as char else c
  }

  /** `str.lower`, one character at a time: the length is kept. */
  function Lower(s: string): (r: string)
    ensures |r| == |s|
  {
    seq(|s|, i requires 0 <= i < |s| => LowerChar(s[i]))
  }

  /** Lowering leaves no upper-case letter and never touches whitespace,
      so it neither joins nor splits words. */
  lemma LowerIsLowercase(s: string)
    ensures |Lower(s)| == |s|
    ensures forall i :: 0 <= i < |s| ==> !IsUpper(Lower(s)[i])
    ensures forall i :: 0 <= i < |s| ==> (IsSpace(Lower(s)[i]) <==> IsSpace(s[i]))
  {
  }

  /** Lowering a string that has no upper-case letter changes nothing. */
  lemma LowerOfLowercase(s: string)
    requires forall i :: 0 <= i < |s| ==> !IsUpper(s[i])
    ensures Lower(s) == s
  {
    assert forall i :: 0 <= i < |s| ==> Lower(s)[i] == s[i];
  }

  // ---------------------------------------------------------------------
  // `sub in s`

  /** `sub` occurs in `s` starting at index `i`. */
  predicate OccursAt(sub: string, s: string, i: nat) {
    i + |sub| <= |s| && s[i..i + |sub|] == sub
  }

  /** `sub` occurs in `s` at some position. */
  ghost predicate Occurs(sub: string, s: string) {
    exists i: nat :: OccursAt(sub, s, i)
  }

  /** Python's `sub in s` for strings: a substring test, scanning `s` from
      the left. */
  function IsSubstring(sub: string, s: string): (r: bool)
    ensures r <==> Occurs(sub, s)
    decreases |s|
  {
    if |sub| > |s| then false
    else if s[..|sub|] == sub then assert OccursAt(sub, s, 0); true
    else
      var r := IsSubstring(sub, s[1..]);
      assert Occurs(sub, s[1..]) ==> Occurs(sub, s) by {
        if Occurs(sub, s[1..]) {
          var i: nat :| OccursAt(sub, s[1..], i);
          assert s[i + 1..i + 1 + |sub|] == s[1..][i..i + |sub|];
          assert OccursAt(sub, s, i + 1);
        }
      }
      assert Occurs(sub, s) ==> Occurs(sub, s[1..]) by {
        if Occurs(sub, s) {
          var i: nat :| OccursAt(sub, s, i);
          assert i != 0;
          assert s[1..][i - 1..i - 1 + |sub|] == s[i..i + |sub|];
          assert OccursAt(sub, s[1..], i - 1);
        }
      }
      r
  }

  // ---------------------------------------------------------------------
  // str.replace(c, d) for single characters

  /** `s.replace(c, d)` where both are single characters: every `c` becomes
      `d` and every other character stays where it is. */
  function ReplaceChar(s: string, c: char, d: char): (r: string)
    ensures |r| == |s|
    ensures c != d ==> c !in r
    ensures forall i :: 0 <= i < |s| && s[i] != c ==> r[i] == s[i]
    ensures forall i :: 0 <= i < |s| && s[i] == c ==> r[i] == d
  {
    seq(|s|, i requires 0 <= i < |s| => if s[i] == c then d else s[i])
  }

  // ---------------------------------------------------------------------
  // str.split()

  /** The characters `str.split()` (and `str.isspace`) treat as whitespace. */
  predicate IsSpace(c: char)
    ensures c == ' ' || c == '\t' || c == '\n' || c == '\r' ==> IsSpace(c)
    ensures IsSpace(c) ==> !IsUpper(c) && !('a' <= c <= 'z') && !('0' <= c <= '9')
  {
    var n := c as int;
    (9 <= n <= 13) || (28 <= n <= 32) || n == 0x85 || n == 0xA0 || n == 0x1680
    || (0x2000 <= n <= 0x200A) || n == 0x2028 || n == 0x2029 || n == 0x202F
    || n == 0x205F || n == 0x3000
  }

  /** What `str.split()` can return as one element: a non-empty run of
      non-whitespace characters. */
  predicate IsToken(w: string) {
    |w| > 0 && forall j :: 0 <= j < |w| ==> !IsSpace(w[j])
  }

  /** The characters of `s` that are not whitespace, in order. */
  function NonSpace(s: string): string {
    if s == [] then []
    else (if IsSpace(s[0]) then [] else [s[0]]) + NonSpace(s[1..])
  }

  /** The words, one after the other. */
  function Concat(words: seq<string>): string {
    if words == [] then [] else words[0] + Concat(words[1..])
  }

  /** The first index at or after `i` that holds whitespace, or `|s|`. */
  function TokenEnd(s: string, i: nat): (k: nat)
    requires i <= |s|
    ensures i <= k <= |s|
    ensures forall j :: i <= j < k ==> !IsSpace(s[j])
    ensures k < |s| ==> IsSpace(s[k])
    decreases |s| - i
  {
    if i == |s| || IsSpace(s[i]) then i else TokenEnd(s, i + 1)
  }

  lemma {:induction false} NonSpaceAppend(a: string, b: string)
    ensures NonSpace(a + b) == NonSpace(a) + NonSpace(b)
  {
    if a != [] {
      assert (a + b)[0] == a[0];
      assert (a + b)[1..] == a[1..] + b;
      NonSpaceAppend(a[1..], b);
    } else {
      assert a + b == b;
    }
  }

  lemma {:induction false} NonSpaceOfToken(s: string)
    requires forall j :: 0 <= j < |s| ==> !IsSpace(s[j])
    ensures NonSpace(s) == s
  {
    if s != [] {
      NonSpaceOfToken(s[1..]);
    }
  }

  /** `str.split()`: the maximal runs of non-whitespace characters, in
      order. Every element is a token, and together they hold exactly the
      non-whitespace characters of `s`, in order. */
  function Split(s: string): (words: seq<string>)
    ensures forall k :: 0 <= k < |words| ==> IsToken(words[k])
    ensures Concat(words) == NonSpace(s)
    decreases |s|
  {
    if s == [] then []
    else if IsSpace(s[0]) then Split(s[1..])
    else
      var k := TokenEnd(s, 0);
      var rest := Split(s[k..]);
      var words := [s[..k]] + rest;
      assert words[1..] == rest;
      NonSpaceOfToken(s[..k]);
      assert s[..k] + s[k..] == s;
      NonSpaceAppend(s[..k], s[k..]);
      words
  }

  /** The first whitespace at or after `i` is the only position that ends
      a run of non-whitespace started at `i`. */
  lemma TokenEndIsUnique(s: string, i: nat, k: nat)
    requires i <= k <= |s|
    requires forall j :: i <= j < k ==> !IsSpace(s[j])
    requires k < |s| ==> IsSpace(s[k])
    ensures TokenEnd(s, i) == k
  {
  }

  /** A single token splits into itself. */
  lemma SplitOfToken(t: string)
    requires IsToken(t)
    ensures Split(t) == [t]
  {
    TokenEndIsUnique(t, 0, |t|);
    assert t[..|t|] == t;
    assert t[|t|..] == [];
  }

  /** Splitting at a whitespace character: the words on either side of it
      are split separately and never joined. With `Split("") == []` and
      `SplitOfToken` this determines `Split` completely, so the words are
      exactly the maximal runs of non-whitespace. */
  lemma SplitAtSpace(a: string, c: char, b: string)
    requires IsSpace(c)
    ensures Split(a + [c] + b) == Split(a) + Split(b)
  {
    SplitBeforeSpace(a, [c] + b);
    assert a + [c] + b == a + ([c] + b);
    assert ([c] + b)[1..] == b;
  }

  /** `SplitAtSpace` with the whitespace at the head of the right operand. */
  lemma {:induction false} SplitBeforeSpace(a: string, y: string)
    requires y != [] && IsSpace(y[0])
    ensures Split(a + y) == Split(a) + Split(y[1..])
    decreases |a|
  {
    var s := a + y;
    if a == [] {
      assert s == y;
      assert Split(a) + Split(y[1..]) == Split(y[1..]);
    } else if IsSpace(a[0]) {
      assert s[0] == a[0];
      DropOfAppend(a, y, 1);
      SplitBeforeSpace(a[1..], y);
      assert Split(s) == Split(a[1..] + y);
    } else {
      var k := TokenEnd(a, 0);
      TokenBeforeSpace(a, y);
      SplitBeforeSpace(a[k..], y);
      calc {
        Split(s);
        [s[..k]] + Split(s[k..]);
        [a[..k]] + (Split(a[k..]) + Split(y[1..]));
        ([a[..k]] + Split(a[k..])) + Split(y[1..]);
        Split(a) + Split(y[1..]);
      }
    }
  }

  /** A token at the start of `a` ends at the same place in `a + y` when
      `y` starts with whitespace. */
  lemma TokenBeforeSpace(a: string, y: string)
    requires y != [] && IsSpace(y[0])
    requires a != [] && !IsSpace(a[0])
    ensures var s, k := a + y, TokenEnd(a, 0);
            && s[0] == a[0] && TokenEnd(s, 0) == k && s[..k] == a[..k] && s[k..] == a[k..] + y
  {
    var s, k := a + y, TokenEnd(a, 0);
    forall j | 0 <= j < k
      ensures !IsSpace(s[j])
    {
      assert s[j] == a[j];
    }
    if k < |a| {
      assert s[k] == a[k];
    } else {
      assert s[k] == y[0];
    }
    TokenEndIsUnique(s, 0, k);
    assert s[..k] == a[..k];
    DropOfAppend(a, y, k);
  }

  /** Dropping a prefix of the left operand of a concatenation. */
  lemma DropOfAppend(x: string, y: string, k: nat)
    requires k <= |x|
    ensures (x + y)[k..] == x[k..] + y
  {
  }

  /** The words of a string without upper-case letters have none either. */
  lemma {:induction false} SplitKeepsLowercase(s: string)
    requires forall i :: 0 <= i < |s| ==> !IsUpper(s[i])
    ensures forall k, j :: 0 <= k < |Split(s)| && 0 <= j < |Split(s)[k]| ==> !IsUpper(Split(s)[k][j])
    decreases |s|
  {
    if s == [] {
    } else if IsSpace(s[0]) {
      SplitKeepsLowercase(s[1..]);
    } else {
      var k := TokenEnd(s, 0);
      SplitKeepsLowercase(s[k..]);
      assert Split(s) == [s[..k]] + Split(s[k..]);
    }
  }
}
