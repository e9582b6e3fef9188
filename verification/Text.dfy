/** The few string operations the hand-written parsers use.

    Characters are ASCII: digits, letters, white space and their lower case are those of the first
    128 code points. Numbers are read and written in decimal. A text is partitioned at a character,
    stripped of white space at both ends, and taken apart into words, which can be spoken again with
    one space in between; texts are ordered by character code.

    Lemmas beside them say what they give without saying how. */
module Text {
  import opened Splitting

  predicate IsDigit(c: char) {
    '0' <= c <= '9'
  }

  /** `str.isdigit()`. */
  predicate IsDigits(s: string) {
    s != "" && forall i :: 0 <= i < |s| ==> IsDigit(s[i])
  }

  function DigitValue(c: char): nat
    requires IsDigit(c)
  {
    c as int - '0' as int
  }

  function Digit(d: nat): (c: char)
    requires d < 10
    ensures IsDigit(c) && DigitValue(c) == d
  {
    ('0' as int + d) as char
  }

  /** `int(s)`. */
  function ToNat(s: string): nat
    requires IsDigits(s)
  {
    if |s| == 1 then DigitValue(s[0]) else 10 * ToNat(Init(s)) + DigitValue(Last(s))
  }

  /** `str(n)`. */
  function FromNat(n: nat): (s: string)
    ensures IsDigits(s) && ToNat(s) == n
  {
    if n < 10 then [Digit(n)]
    else
      var s := FromNat(n / 10) + [Digit(n % 10)];
      assert Init(s) == FromNat(n / 10);
      s
  }

  /** `f"{n:02d}"`. */
  function Padded(n: nat): (s: string)
    ensures IsDigits(s) && ToNat(s) == n
  {
    if n < 10 then
      assert Init(['0', Digit(n)]) == ['0'] && ToNat(['0']) == 0;
      ['0', Digit(n)]
    else FromNat(n)
  }

  /** `s.partition(c)` at the first `c`: what precedes it, whether there is one, what follows. */
  function Partition(s: string, c: char): (r: (string, bool, string))
    ensures c !in r.0
    ensures r.1 <==> c in s
    ensures s == if r.1 then r.0 + [c] + r.2 else r.0
    ensures !r.1 ==> r.2 == ""
  {
    if s == "" then ("", false, "")
    else if s[0] == c then ("", true, s[1..])
    else
      var rest := Partition(s[1..], c);
      ([s[0]] + rest.0, rest.1, rest.2)
  }

  lemma PartitionUnique(s: string, c: char, before: string, after: string)
    requires c !in before && s == before + [c] + after
    ensures Partition(s, c) == (before, true, after)
  {
    var r := Partition(s, c);
    assert s[|before|] == c && s[|r.0|] == c;
    assert forall i :: 0 <= i < |before| ==> s[i] == before[i] && s[i] != c;
    assert forall i :: 0 <= i < |r.0| ==> s[i] == r.0[i] && s[i] != c;
    assert |before| == |r.0|;
    assert s[..|before|] == before && s[..|r.0|] == r.0;
    assert s[|before| + 1..] == after && s[|r.0| + 1..] == r.2;
  }

  lemma PartitionNone(s: string, c: char)
    requires c !in s
    ensures Partition(s, c) == (s, false, "")
  {
  }

  function LowerChar(c: char): char {
    if 'A' <= c <= 'Z' then (c as int + 32) as char else c
  }

  function Lower(s: string): string {
    seq(|s|, i requires 0 <= i < |s| => LowerChar(s[i]))
  }

  const UPPER_CASE := "ABCDEFGHIJKLMNOPQRSTUVWXYZ"
  const LOWER_CASE := "abcdefghijklmnopqrstuvwxyz"

  const DECIMALS := "0123456789"

  lemma UpperAreListed(c: char)
    ensures 'A' <= c <= 'Z' <==> c in UPPER_CASE
  {
    if 'A' <= c <= 'Z' {
      assert UPPER_CASE[c as int - 'A' as int] == c;
    }
  }

  lemma LowerAreListed(c: char)
    ensures 'a' <= c <= 'z' <==> c in LOWER_CASE
  {
    if 'a' <= c <= 'z' {
      assert LOWER_CASE[c as int - 'a' as int] == c;
    }
  }

  lemma DecimalsAreListed(c: char)
    ensures IsDigit(c) <==> c in DECIMALS
  {
    if IsDigit(c) {
      assert DECIMALS[c as int - '0' as int] == c;
    }
  }

  lemma LowerLetters(c: char, i: nat)
    requires i < 26
    ensures LowerChar(UPPER_CASE[i]) == LOWER_CASE[i]
    ensures c !in UPPER_CASE ==> LowerChar(c) == c
  {
    UpperAreListed(c);
  }

  // ---------------------------------------------------------------- words

  predicate IsSpace(c: char) {
    c == ' ' || '\t' <= c <= '\r' || '\U{1c}' <= c <= '\U{1f}'
  }

  /** `s.strip()`. */
  function Strip(s: string): string {
    if s == "" then ""
    else if IsSpace(s[0]) then Strip(s[1..])
    else if IsSpace(Last(s)) then Strip(Init(s))
    else s
  }

  /** What is left is the text without the white space around it, and neither begins nor ends with any. */
  lemma {:induction false} StripIs(s: string)
    ensures exists i, j :: 0 <= i <= j <= |s| && IsStripped(s, i, j) && Strip(s) == s[i..j]
  {
    if s == "" {
      assert IsStripped(s, 0, 0);
    } else if IsSpace(s[0]) {
      StripIs(s[1..]);
      var i, j :| 0 <= i <= j <= |s[1..]| && IsStripped(s[1..], i, j) && Strip(s[1..]) == s[1..][i..j];
      assert forall k :: 0 < k < |s| ==> s[k] == s[1..][k - 1];
      assert IsStripped(s, i + 1, j + 1) && s[1..][i..j] == s[i + 1..j + 1];
    } else if IsSpace(Last(s)) {
      StripIs(Init(s));
      var i, j :| 0 <= i <= j <= |Init(s)| && IsStripped(Init(s), i, j) && Strip(Init(s)) == Init(s)[i..j];
      assert forall k :: 0 <= k < |s| - 1 ==> s[k] == Init(s)[k];
      assert IsStripped(s, i, j) && Init(s)[i..j] == s[i..j];
    } else {
      assert IsStripped(s, 0, |s|) && s[0..|s|] == s;
    }
  }

  ghost predicate IsStripped(s: string, i: int, j: int) {
    && 0 <= i <= j <= |s|
    && (forall k :: 0 <= k < i || j <= k < |s| ==> IsSpace(s[k]))
    && (i < j ==> !IsSpace(s[i]) && !IsSpace(s[j - 1]))
  }

  lemma {:induction false} StripKeeps(s: string)
    requires s != "" && !IsSpace(s[0]) && !IsSpace(Last(s))
    ensures Strip(s) == s
  {
  }

  function Spaced(s: string): string {
    seq(|s|, i requires 0 <= i < |s| => if IsSpace(s[i]) then ' ' else s[i])
  }

  function NonEmpty(pieces: seq<string>): seq<string> {
    if pieces == [] then []
    else (if pieces[0] == "" then [] else [pieces[0]]) + NonEmpty(pieces[1..])
  }

  /** `s.split()`: the runs of characters between white space. */
  function Words(s: string): seq<string> {
    NonEmpty(Split(Spaced(s), ' '))
  }

  ghost predicate IsWord(s: string) {
    s != "" && forall i :: 0 <= i < |s| ==> !IsSpace(s[i])
  }

  ghost predicate AreWords(words: seq<string>) {
    forall i :: 0 <= i < |words| ==> IsWord(words[i])
  }

  /** `" ".join(words)`. */
  function Spoken(words: seq<string>): string
  {
    if words == [] then "" else Join(words, ' ')
  }

  lemma {:induction false} NonEmptyKeepsWords(words: seq<string>)
    requires AreWords(words)
    ensures NonEmpty(words) == words
  {
    if words != [] {
      assert IsWord(words[0]);
      NonEmptyKeepsWords(words[1..]);
    }
  }

  lemma {:induction false} JoinedChars(words: seq<string>, sep: char)
    requires words != [] && AreWords(words)
    ensures forall i :: 0 <= i < |Join(words, sep)| ==> !IsSpace(Join(words, sep)[i]) || Join(words, sep)[i] == sep
    decreases |words|
  {
    if |words| > 1 {
      JoinedChars(Init(words), sep);
      assert IsWord(Last(words));
    } else {
      assert IsWord(words[0]);
    }
  }

  /** Words joined by one space are read back. */
  lemma WordsOfSpoken(words: seq<string>)
    requires AreWords(words)
    ensures Words(Spoken(words)) == words
  {
    if words == [] {
      assert Spaced("") == "";
      assert Split("", ' ') == [""];
      assert NonEmpty([""]) == [] + NonEmpty([""][1..]);
    } else {
      JoinedChars(words, ' ');
      assert Spaced(Join(words, ' ')) == Join(words, ' ');
      forall i | 0 <= i < |words|
        ensures Free(words[i], ' ')
      {
        assert IsWord(words[i]);
      }
      SplitIsUnique(words, ' ');
      NonEmptyKeepsWords(words);
    }
  }

  lemma {:induction false} NonEmptyIsFree(pieces: seq<string>)
    requires forall i :: 0 <= i < |pieces| ==> forall j :: 0 <= j < |pieces[i]| ==> !IsSpace(pieces[i][j])
    ensures AreWords(NonEmpty(pieces))
  {
    if pieces != [] {
      NonEmptyIsFree(pieces[1..]);
    }
  }

  lemma {:induction false} PiecesOfChars(s: string, sep: char, i: nat, j: nat)
    requires i < |Split(s, sep)| && j < |Split(s, sep)[i]|
    ensures Split(s, sep)[i][j] in s
  {
    if s != [] {
      var before := Split(Init(s), sep);
      if Last(s) == sep {
        if i < |before| {
          PiecesOfChars(Init(s), sep, i, j);
        }
      } else if i < |before| - 1 || j < |Last(before)| {
        PiecesOfChars(Init(s), sep, i, j);
      }
    }
  }

  lemma WordsAreWords(s: string)
    ensures AreWords(Words(s))
  {
    var pieces := Split(Spaced(s), ' ');
    SplitIsFree(Spaced(s), ' ');
    forall i, j | 0 <= i < |pieces| && 0 <= j < |pieces[i]|
      ensures !IsSpace(pieces[i][j])
    {
      PiecesOfChars(Spaced(s), ' ', i, j);
      assert Free(pieces[i], ' ');
    }
    NonEmptyIsFree(pieces);
  }

  // ---------------------------------------------------------------- order

  /** `a < b` by character code, a prefix first. */
  predicate Less(a: string, b: string) {
    b != "" && (a == "" || a[0] < b[0] || (a[0] == b[0] && Less(a[1..], b[1..])))
  }

  lemma {:induction false} LessIsTotal(a: string, b: string)
    ensures Less(a, b) || a == b || Less(b, a)
    ensures Less(a, b) ==> a != b && !Less(b, a)
  {
    if a != "" && b != "" && a[0] == b[0] {
      LessIsTotal(a[1..], b[1..]);
      assert a == [a[0]] + a[1..] && b == [b[0]] + b[1..];
    }
  }

  lemma {:induction false} LessIsTransitive(a: string, b: string, c: string)
    requires Less(a, b) && Less(b, c)
    ensures Less(a, c)
  {
    if a != "" && a[0] == b[0] && b[0] == c[0] {
      LessIsTransitive(a[1..], b[1..], c[1..]);
    }
  }
}
