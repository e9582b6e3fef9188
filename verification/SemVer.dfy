/** SemVer precedence for add-on versions (`semver.py`), and the sections of a changelog between
    two versions (`addon_upgrades.py`). */
module SemVer {
  import opened Splitting
  import opened Text
  import opened Wrappers

  // ---------------------------------------------------------------- versions

  datatype Version = Version(major: nat, minor: nat, patch: nat, pre: seq<string>)

  predicate IsIdentifierChar(c: char) {
    IsDigit(c) || 'A' <= c <= 'Z' || 'a' <= c <= 'z' || c == '-'
  }

  predicate IsIdentifier(s: string) {
    s != "" && forall i :: 0 <= i < |s| ==> IsIdentifierChar(s[i])
  }

  /** A name of letters, digits and hyphens. */
  lemma IdentifierIs(s: string)
    ensures IsIdentifier(s) <==>
              s != "" && forall c :: c in s ==> c in UPPER_CASE || c in LOWER_CASE || c in DECIMALS || c == '-'
  {
    forall c
      ensures IsIdentifierChar(c) <==> c in UPPER_CASE || c in LOWER_CASE || c in DECIMALS || c == '-'
    {
      UpperAreListed(c);
      LowerAreListed(c);
      DecimalsAreListed(c);
    }
    hide IsIdentifierChar, UPPER_CASE, LOWER_CASE, DECIMALS;
  }

  predicate AreIdentifiers(parts: seq<string>) {
    forall i :: 0 <= i < |parts| ==> IsIdentifier(parts[i])
  }

  /** The version a text states, or None: three numbers, then a pre-release after a hyphen and
      build metadata after a plus, which precedence ignores. */
  function Parse(text: string): Option<Version> {
    var (rest, hasBuild, build) := Partition(Strip(text), '+');
    var (core, hasPre, pre) := Partition(rest, '-');
    var numbers := Split(core, '.');
    if hasBuild && !AreIdentifiers(Split(build, '.')) then None
    else if hasPre && !AreIdentifiers(Split(pre, '.')) then None
    else if |numbers| != 3 || !IsDigits(numbers[0]) || !IsDigits(numbers[1]) || !IsDigits(numbers[2]) then None
    else Some(Version(ToNat(numbers[0]), ToNat(numbers[1]), ToNat(numbers[2]), if hasPre then Split(pre, '.') else []))
  }

  /** How the text of a version is put together, by sections 2, 9 and 10 of Semantic Versioning
      2.0.0: numbers with dots between them, a hyphen before the pre-release, a plus before the build. */
  function Core(numbers: seq<string>): string
    requires |numbers| == 3
  {
    numbers[0] + "." + numbers[1] + "." + numbers[2]
  }

  function Suffix(mark: char, parts: seq<string>): string {
    if parts == [] then "" else [mark] + Join(parts, '.')
  }

  ghost predicate IsWritten(text: string, numbers: seq<string>, pre: seq<string>, build: seq<string>) {
    && |numbers| == 3 && IsDigits(numbers[0]) && IsDigits(numbers[1]) && IsDigits(numbers[2])
    && AreIdentifiers(pre) && AreIdentifiers(build)
    && Strip(text) == Core(numbers) + Suffix('-', pre) + Suffix('+', build)
  }

  ghost predicate HasNumbers(v: Version, numbers: seq<string>) {
    && |numbers| == 3 && IsDigits(numbers[0]) && IsDigits(numbers[1]) && IsDigits(numbers[2])
    && v.major == ToNat(numbers[0]) && v.minor == ToNat(numbers[1]) && v.patch == ToNat(numbers[2])
  }

  /** The version a text states, spaces around it not counting. */
  ghost predicate States(text: string, v: Version) {
    exists numbers, build :: IsWritten(text, numbers, v.pre, build) && HasNumbers(v, numbers)
  }

  lemma PlainChars(s: string)
    ensures IsDigits(s) ==> Free(s, '.') && Free(s, '-') && Free(s, '+')
    ensures IsIdentifier(s) ==> Free(s, '.') && Free(s, '+')
  {
  }

  lemma {:induction false} JoinedIdentifiers(parts: seq<string>)
    requires AreIdentifiers(parts) && parts != []
    ensures AllFree(parts, '.') && Free(Join(parts, '.'), '+')
  {
    PlainChars(Last(parts));
    if |parts| > 1 {
      JoinedIdentifiers(Init(parts));
    }
  }

  lemma JoinOfThree(numbers: seq<string>)
    requires |numbers| == 3
    ensures Join(numbers, '.') == Core(numbers)
  {
    assert numbers == [numbers[0]] + [numbers[1]] + [numbers[2]];
    JoinAppend([numbers[0]], numbers[1], '.');
    JoinAppend([numbers[0]] + [numbers[1]], numbers[2], '.');
  }

  lemma CoreIsSplit(numbers: seq<string>)
    requires |numbers| == 3 && IsDigits(numbers[0]) && IsDigits(numbers[1]) && IsDigits(numbers[2])
    ensures Split(Core(numbers), '.') == numbers && Free(Core(numbers), '-') && Free(Core(numbers), '+')
  {
    PlainChars(numbers[0]);
    PlainChars(numbers[1]);
    PlainChars(numbers[2]);
    JoinOfThree(numbers);
    SplitIsUnique(numbers, '.');
  }

  lemma SuffixIsRead(head: string, mark: char, parts: seq<string>)
    requires Free(head, mark) && AreIdentifiers(parts)
    ensures Partition(head + Suffix(mark, parts), mark) == (head, parts != [], if parts == [] then "" else Join(parts, '.'))
    ensures parts != [] ==> Split(Join(parts, '.'), '.') == parts
    ensures mark == '-' && Free(head, '+') ==> Free(head + Suffix(mark, parts), '+')
  {
    hide Split, IsIdentifier, Join;
    if parts == [] {
      assert head + "" == head;
      PartitionNone(head, mark);
    } else {
      JoinedIdentifiers(parts);
      SplitIsUnique(parts, '.');
      assert head + Suffix(mark, parts) == head + [mark] + Join(parts, '.');
      PartitionUnique(head + Suffix(mark, parts), mark, head, Join(parts, '.'));
    }
  }

  lemma WrittenIsParsed(text: string, numbers: seq<string>, pre: seq<string>, build: seq<string>)
    requires IsWritten(text, numbers, pre, build)
    ensures Parse(text) == Some(Version(ToNat(numbers[0]), ToNat(numbers[1]), ToNat(numbers[2]), pre))
  {
    hide Split, IsDigits, ToNat, Strip, IsIdentifier, AreIdentifiers, Join, Core, Suffix, Partition;
    CoreIsSplit(numbers);
    SuffixIsRead(Core(numbers), '-', pre);
    SuffixIsRead(Core(numbers) + Suffix('-', pre), '+', build);
  }

  /** What comes after the mark, put together again. */
  lemma PartitionIsSuffix(text: string, mark: char)
    ensures var (head, has, rest) := Partition(text, mark);
            text == head + Suffix(mark, if has then Split(rest, '.') else [])
  {
    hide Split, Join;
    SplitJoins(Partition(text, mark).2, '.');
  }

  lemma ParsedIsWritten(text: string)
    requires Parse(text).Some?
    ensures States(text, Parse(text).value)
  {
    NoIdentifiers();
    hide Split, IsDigits, ToNat, Strip, IsIdentifier, AreIdentifiers, Join, Core, Suffix, Partition;
    var (rest, hasBuild, build) := Partition(Strip(text), '+');
    var (core, hasPre, pre) := Partition(rest, '-');
    var numbers := Split(core, '.');
    PartitionIsSuffix(Strip(text), '+');
    PartitionIsSuffix(rest, '-');
    SplitJoins(core, '.');
    JoinOfThree(numbers);
    assert IsWritten(text, numbers, Parse(text).value.pre, if hasBuild then Split(build, '.') else []);
    assert HasNumbers(Parse(text).value, numbers);
  }

  lemma NoIdentifiers()
    ensures AreIdentifiers([])
  {
  }

  /** Parsing reads exactly the versions that are written by the rules, and each as what it states. */
  lemma ParseIsStated(text: string, v: Version)
    ensures Parse(text) == Some(v) <==> States(text, v)
  {
    hide Parse, IsWritten, ToNat;
    if Parse(text) == Some(v) {
      ParsedIsWritten(text);
    }
    if States(text, v) {
      var numbers, build :| IsWritten(text, numbers, v.pre, build) && HasNumbers(v, numbers);
      WrittenIsParsed(text, numbers, v.pre, build);
    }
  }

  // ---------------------------------------------------------------- precedence, by the rules

  /** Section 11.4 of Semantic Versioning 2.0.0: numeric identifiers compare as numbers, others
      in ASCII order, and a numeric one is lower than any other. */
  predicate IdentifierLower(a: string, b: string) {
    if IsDigits(a) then !IsDigits(b) || ToNat(a) < ToNat(b)
    else !IsDigits(b) && Less(a, b)
  }

  predicate SameIdentifier(a: string, b: string) {
    if IsDigits(a) then IsDigits(b) && ToNat(a) == ToNat(b) else a == b
  }

  /** ... compared from the left up to the first difference, more fields being higher. */
  ghost predicate PreReleaseLower(a: seq<string>, b: seq<string>) {
    exists i :: 0 <= i <= |a| && DiffersAt(a, b, i)
  }

  ghost predicate DiffersAt(a: seq<string>, b: seq<string>, i: nat)
    requires i <= |a|
  {
    i < |b| && (forall k :: 0 <= k < i ==> SameIdentifier(a[k], b[k])) && (i == |a| || IdentifierLower(a[i], b[i]))
  }

  /** Section 11: major, minor and patch as numbers, a pre-release before its release, then the
      pre-release identifiers. */
  ghost predicate Lower(a: Version, b: Version) {
    if a.major != b.major then a.major < b.major
    else if a.minor != b.minor then a.minor < b.minor
    else if a.patch != b.patch then a.patch < b.patch
    else if a.pre == [] || b.pre == [] then a.pre != [] && b.pre == []
    else PreReleaseLower(a.pre, b.pre)
  }

  // ---------------------------------------------------------------- precedence, by keys

  /** `(0, number, "")` or `(1, 0, text)`. */
  datatype Key = Key(kind: nat, number: nat, text: string)

  function KeyOf(p: string): Key {
    if IsDigits(p) then Key(0, ToNat(p), "") else Key(1, 0, p)
  }

  function Keys(pre: seq<string>): seq<Key> {
    seq(|pre|, i requires 0 <= i < |pre| => KeyOf(pre[i]))
  }

  /** `<` of two tuples: by the first component that differs. */
  predicate KeyLess(a: Key, b: Key) {
    if a.kind != b.kind then a.kind < b.kind
    else if a.number != b.number then a.number < b.number
    else Less(a.text, b.text)
  }

  /** `<` of two lists: by the first element that differs, a prefix before what it starts. */
  predicate KeysLess(a: seq<Key>, b: seq<Key>) {
    if b == [] then false
    else if a == [] then true
    else if a[0] != b[0] then KeyLess(a[0], b[0])
    else KeysLess(a[1..], b[1..])
  }

  predicate TripleLess(a: Version, b: Version) {
    if a.major != b.major then a.major < b.major
    else if a.minor != b.minor then a.minor < b.minor
    else a.patch < b.patch
  }

  function CompareVersions(a: Version, b: Version): int {
    if a.major != b.major || a.minor != b.minor || a.patch != b.patch then if TripleLess(a, b) then -1 else 1
    else if (a.pre == []) != (b.pre == []) then if b.pre == [] then -1 else 1
    else if Keys(a.pre) == Keys(b.pre) then 0
    else if KeysLess(Keys(a.pre), Keys(b.pre)) then -1 else 1
  }

  /** `compare`: None if either text is not a version. */
  function Compare(a: string, b: string): Option<int> {
    var va, vb := Parse(a), Parse(b);
    if va.None? || vb.None? then None else Some(CompareVersions(va.value, vb.value))
  }

  /** `is_newer`. */
  function IsNewer(candidate: string, installed: string): Option<bool> {
    var order := Compare(candidate, installed);
    if order.None? then None else Some(order.value > 0)
  }

  // ---------------------------------------------------------------- keys follow the rules

  lemma KeyFollowsRules(a: string, b: string)
    ensures KeyOf(a) == KeyOf(b) <==> SameIdentifier(a, b)
    ensures KeyLess(KeyOf(a), KeyOf(b)) <==> IdentifierLower(a, b)
    ensures !(IdentifierLower(a, b) && SameIdentifier(a, b))
  {
    LessIsTotal(a, b);
  }

  lemma {:induction false} KeysFollowRules(a: seq<string>, b: seq<string>)
    ensures KeysLess(Keys(a), Keys(b)) <==> PreReleaseLower(a, b)
  {
    hide KeyOf, IdentifierLower, SameIdentifier, KeyLess;
    if a == [] || b == [] {
      if b != [] {
        assert DiffersAt(a, b, 0);
      }
    } else {
      KeyFollowsRules(a[0], b[0]);
      assert Keys(a)[1..] == Keys(a[1..]) && Keys(b)[1..] == Keys(b[1..]);
      if KeyOf(a[0]) != KeyOf(b[0]) {
        assert DiffersAt(a, b, 0) <==> IdentifierLower(a[0], b[0]);
      } else {
        KeysFollowRules(a[1..], b[1..]);
        if PreReleaseLower(a[1..], b[1..]) {
          var i :| 0 <= i <= |a[1..]| && DiffersAt(a[1..], b[1..], i);
          DiffersLater(a, b, i);
        }
        if PreReleaseLower(a, b) {
          var i :| 0 <= i <= |a| && DiffersAt(a, b, i);
          assert i > 0;
          DiffersLater(a, b, i - 1);
        }
      }
    }
  }

  lemma DiffersLater(a: seq<string>, b: seq<string>, i: nat)
    requires a != [] && b != [] && SameIdentifier(a[0], b[0]) && i < |a|
    ensures DiffersAt(a, b, i + 1) <==> DiffersAt(a[1..], b[1..], i)
  {
    hide IdentifierLower, SameIdentifier;
    if DiffersAt(a, b, i + 1) {
      forall k | 0 <= k < i
        ensures SameIdentifier(a[1..][k], b[1..][k])
      {
        assert SameIdentifier(a[k + 1], b[k + 1]);
      }
    }
    if DiffersAt(a[1..], b[1..], i) {
      forall k | 0 <= k < i + 1
        ensures SameIdentifier(a[k], b[k])
      {
        assert k > 0 ==> SameIdentifier(a[1..][k - 1], b[1..][k - 1]);
      }
    }
  }

  lemma {:induction false} KeysAreTotal(a: seq<Key>, b: seq<Key>)
    ensures KeysLess(a, b) || a == b || KeysLess(b, a)
    ensures KeysLess(a, b) ==> a != b && !KeysLess(b, a)
  {
    if a != [] && b != [] {
      LessIsTotal(a[0].text, b[0].text);
      if a[0] == b[0] {
        KeysAreTotal(a[1..], b[1..]);
        assert a == [a[0]] + a[1..] && b == [b[0]] + b[1..];
      }
    }
  }

  lemma KeyLessTransitive(a: Key, b: Key, c: Key)
    requires KeyLess(a, b) && KeyLess(b, c)
    ensures KeyLess(a, c) && a != c
  {
    LessIsTotal(a.text, b.text);
    LessIsTotal(b.text, c.text);
    LessIsTotal(a.text, c.text);
    if a.kind == b.kind == c.kind && a.number == b.number == c.number {
      LessIsTransitive(a.text, b.text, c.text);
    }
  }

  lemma {:induction false} KeysLessTransitive(a: seq<Key>, b: seq<Key>, c: seq<Key>)
    requires KeysLess(a, b) && KeysLess(b, c)
    ensures KeysLess(a, c)
  {
    if a != [] {
      if a[0] == b[0] && b[0] == c[0] {
        KeysLessTransitive(a[1..], b[1..], c[1..]);
      } else if a[0] != b[0] && b[0] != c[0] {
        KeyLessTransitive(a[0], b[0], c[0]);
      }
    }
  }

  /** Comparing by keys is comparing by the rules of section 11: below, above, or neither. */
  lemma CompareIsPrecedence(a: Version, b: Version)
    ensures CompareVersions(a, b) in {-1, 0, 1}
    ensures CompareVersions(a, b) == -1 <==> Lower(a, b)
    ensures CompareVersions(a, b) == 1 <==> Lower(b, a)
  {
    KeysFollowRules(a.pre, b.pre);
    KeysFollowRules(b.pre, a.pre);
    KeysAreTotal(Keys(a.pre), Keys(b.pre));
  }

  /** Precedence is a total preorder: every version equals itself, swapping turns the sign, and
      it carries over three versions. */
  lemma CompareIsPreorder(a: Version, b: Version, c: Version)
    ensures CompareVersions(a, a) == 0 && CompareVersions(b, a) == -CompareVersions(a, b)
    ensures CompareVersions(a, b) <= 0 && CompareVersions(b, c) <= 0 ==> CompareVersions(a, c) <= 0
    ensures CompareVersions(a, b) < 0 && CompareVersions(b, c) <= 0 ==> CompareVersions(a, c) < 0
  {
    var ka, kb, kc := Keys(a.pre), Keys(b.pre), Keys(c.pre);
    hide Keys, KeysLess;
    KeysAreTotal(ka, kb);
    KeysAreTotal(kb, kc);
    KeysAreTotal(ka, kc);
    if KeysLess(ka, kb) && KeysLess(kb, kc) {
      KeysLessTransitive(ka, kb, kc);
    }
  }

  /** The same of texts: they compare exactly when both are versions. */
  lemma CompareTexts(a: string, b: string)
    ensures Compare(a, b).Some? <==> Parse(a).Some? && Parse(b).Some?
    ensures Compare(a, b).Some? ==> Compare(b, a) == Some(-Compare(a, b).value)
    ensures IsNewer(a, b) == Some(true) <==> Compare(b, a) == Some(-1)
  {
    if Compare(a, b).Some? {
      CompareIsPreorder(Parse(a).value, Parse(b).value, Parse(b).value);
      CompareIsPrecedence(Parse(a).value, Parse(b).value);
    }
  }

  // ---------------------------------------------------------------- the changelog

  const CHANGELOG_LIMIT: nat := 6000

  /** A heading of the file with the text under it. */
  datatype Section = Section(version: string, date: string, body: string)

  /** Newer than what is installed and not newer than the candidate. */
  predicate IsBetween(version: string, installed: string, candidate: string) {
    var newer, upto := Compare(version, installed), Compare(version, candidate);
    newer.Some? && upto.Some? && newer.value > 0 && upto.value <= 0
  }

  function Between(sections: seq<Section>, installed: string, candidate: string): seq<Section> {
    if sections == [] then []
    else
      Between(Init(sections), installed, candidate)
      + if IsBetween(Last(sections).version, installed, candidate) then [Last(sections)] else []
  }

  /** The sections that count are exactly those of versions above the installed one and not
      above the candidate, by precedence. */
  lemma {:induction false} BetweenIsExactly(sections: seq<Section>, installed: string, candidate: string, s: Section)
    ensures s in Between(sections, installed, candidate) <==>
              && s in sections && Parse(s.version).Some? && Parse(installed).Some? && Parse(candidate).Some?
              && Lower(Parse(installed).value, Parse(s.version).value)
              && !Lower(Parse(candidate).value, Parse(s.version).value)
  {
    hide Parse, Lower;
    BetweenIsPrecedence(s.version, installed, candidate);
    if sections != [] {
      BetweenIsExactly(Init(sections), installed, candidate, s);
      assert sections == Init(sections) + [Last(sections)];
    }
  }

  lemma BetweenIsPrecedence(version: string, installed: string, candidate: string)
    ensures IsBetween(version, installed, candidate) <==>
              && Parse(version).Some? && Parse(installed).Some? && Parse(candidate).Some?
              && Lower(Parse(installed).value, Parse(version).value) && !Lower(Parse(candidate).value, Parse(version).value)
  {
    hide Parse, Lower;
    if Parse(version).Some? && Parse(installed).Some? && Parse(candidate).Some? {
      CompareIsPrecedence(Parse(version).value, Parse(installed).value);
      CompareIsPrecedence(Parse(version).value, Parse(candidate).value);
    }
  }

  function TotalLength(sections: seq<Section>): nat {
    if sections == [] then 0 else TotalLength(Init(sections)) + |Last(sections).body|
  }

  /** The longest beginning that fits, or the first section cut when it alone is too long. */
  ghost predicate FitsLimit(all: seq<Section>, shown: seq<Section>) {
    && TotalLength(shown) <= 6000
    && (|| shown == all
        || (shown != [] && |shown| < |all| && shown == all[..|shown|] && TotalLength(all[..|shown| + 1]) > 6000)
        || (all != [] && |all[0].body| > 6000 && shown == [all[0].(body := all[0].body[..6000])]))
  }

  lemma {:induction false} BetweenPrefix(sections: seq<Section>, installed: string, candidate: string, n: nat)
    requires n <= |sections|
    ensures Between(sections[..n], installed, candidate) <= Between(sections, installed, candidate)
    decreases |sections|
  {
    hide IsBetween;
    if n == |sections| {
      assert sections[..n] == sections;
    } else {
      BetweenPrefix(Init(sections), installed, candidate, n);
      assert Init(sections)[..n] == sections[..n];
    }
  }

  lemma TotalAppend(sections: seq<Section>, s: Section)
    ensures TotalLength(sections + [s]) == TotalLength(sections) + |s.body|
  {
    assert Init(sections + [s]) == sections;
  }

  /** `changelog_between` on the sections of the file. */
  method ChangelogBetween(sections: seq<Section>, installed: string, candidate: string) returns (wanted: seq<Section>)
    ensures FitsLimit(Between(sections, installed, candidate), wanted)
  {
    hide IsBetween;
    wanted := [];
    var used := 0;
    var n := 0;
    ghost var all := Between(sections, installed, candidate);
    while n < |sections|
      invariant n <= |sections| && wanted == Between(sections[..n], installed, candidate)
      invariant used == TotalLength(wanted) <= CHANGELOG_LIMIT
    {
      var s := sections[n];
      assert Init(sections[..n + 1]) == sections[..n] && Last(sections[..n + 1]) == s;
      n := n + 1;
      if !IsBetween(s.version, installed, candidate) {
        continue;
      }
      TotalAppend(wanted, s);
      if used + |s.body| > CHANGELOG_LIMIT {
        BetweenPrefix(sections, installed, candidate, n);
        assert wanted + [s] <= all;
        assert all[..|wanted| + 1] == wanted + [s];
        if wanted == [] {
          wanted := [Section(s.version, s.date, s.body[..CHANGELOG_LIMIT])];
          TotalAppend([], wanted[0]);
        }
        return;
      }
      used := used + |s.body|;
      wanted := wanted + [s];
    }
    assert sections[..n] == sections;
  }
}
