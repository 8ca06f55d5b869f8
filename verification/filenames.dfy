/** The file-name builder of `process_item`: join the parts, turn dots into underscores,
    drop every character outside `[a-zA-Z0-9_]`, fall back to a fixed name when nothing
    is left, and append the text extension. */
module FileNames {
  import opened Sequences

  const DefaultName: string := "default_name"
  const Extension: string := ".txt"

  /** The characters the regex class `[a-zA-Z0-9_]` admits. */
  predicate IsWordChar(c: char) {
    ('a' <= c <= 'z') || ('A' <= c <= 'Z') || ('0' <= c <= '9') || c == '_'
  }

  predicate AllWordChars(s: string) {
    forall k :: 0 <= k < |s| ==> IsWordChar(s[k])
  }

  /** The characters Python's `str.strip()` removes (those `str.isspace()` accepts). */
  predicate IsPySpace(c: char) {
    c == ' ' || ('\t' <= c <= '\r') || ('\U{1c}' <= c <= '\U{1f}') || c == '\U{85}' || c == '\U{a0}'
    || c == '\U{1680}' || ('\U{2000}' <= c <= '\U{200a}') || c == '\U{2028}' || c == '\U{2029}'
    || c == '\U{202f}' || c == '\U{205f}' || c == '\U{3000}'
  }

  /** `not s.strip()`: the string is empty once surrounding whitespace is removed. */
  predicate IsBlank(s: string) {
    forall k :: 0 <= k < |s| ==> IsPySpace(s[k])
  }

  /** `s.replace('.', '_')`. */
  function ReplaceDots(s: string): (r: string)
    ensures |r| == |s|
    ensures forall k :: 0 <= k < |s| ==> r[k] == if s[k] == '.' then '_' else s[k]
    ensures '.' !in r
  {
    if s == [] then [] else [if s[0] == '.' then '_' else s[0]] + ReplaceDots(s[1..])
  }

  /** `re.sub('[^a-zA-Z0-9_]', '', s)`: the word characters of `s`, in order. */
  function StripDisallowed(s: string): (r: string)
    ensures AllWordChars(r)
    ensures AllWordChars(s) ==> r == s
  {
    if s == [] then []
    else if IsWordChar(s[0]) then [s[0]] + StripDisallowed(s[1..])
    else StripDisallowed(s[1..])
  }

  /** Every word character of `s` survives as often as it occurs; nothing else survives. */
  lemma {:induction false} StripDisallowedCounts(s: string)
    ensures forall c :: multiset(StripDisallowed(s))[c] == if IsWordChar(c) then multiset(s)[c] else 0
  {
    if s != [] {
      StripDisallowedCounts(s[1..]);
      assert s == [s[0]] + s[1..];
    }
  }

  /** The survivors keep their relative order. */
  lemma {:induction false} StripDisallowedSubsequence(s: string)
    ensures IsSubsequence(StripDisallowed(s), s)
  {
    if s != [] {
      StripDisallowedSubsequence(s[1..]);
      var rest := StripDisallowed(s[1..]);
      if IsWordChar(s[0]) {
        assert ([s[0]] + rest)[1..] == rest;
      } else {
        SubsequenceDropFirst(rest, s);
      }
    }
  }

  /** Lines 33-34: the sanitized stem of a base name. */
  function Stem(base: string): (r: string)
    ensures AllWordChars(r)
  {
    StripDisallowed(ReplaceDots(base))
  }

  /** The stem is the base name with dots turned into underscores and every other character
      outside `[a-zA-Z0-9_]` deleted: it is an in-order subsequence of the dot-replaced name,
      every underscore and dot of the base becomes an underscore of the stem, every other word
      character keeps its count, and nothing else appears. */
  lemma StemContents(base: string)
    ensures IsSubsequence(Stem(base), ReplaceDots(base))
    ensures multiset(Stem(base))['_'] == multiset(base)['_'] + multiset(base)['.']
    ensures forall c :: c != '_' ==> multiset(Stem(base))[c] == if IsWordChar(c) then multiset(base)[c] else 0
  {
    StripDisallowedSubsequence(ReplaceDots(base));
    StripDisallowedCounts(ReplaceDots(base));
    DotCount(base);
  }

  /** Replacing dots moves every `.` to the `_` count and leaves all other characters alone. */
  lemma {:induction false} DotCount(s: string)
    ensures multiset(ReplaceDots(s))['_'] == multiset(s)['_'] + multiset(s)['.']
    ensures forall c :: c != '_' && c != '.' ==> multiset(ReplaceDots(s))[c] == multiset(s)[c]
  {
    if s != [] {
      DotCount(s[1..]);
      var h := if s[0] == '.' then '_' else s[0];
      assert s == [s[0]] + s[1..];
      assert ReplaceDots(s) == [h] + ReplaceDots(s[1..]);
      var m, n := multiset(s[1..]), multiset(ReplaceDots(s[1..]));
      assert multiset(s) == multiset{s[0]} + m;
      assert multiset(ReplaceDots(s)) == multiset{h} + n;
    }
  }

  /** A string is its own stem exactly when every character is already a word character. */
  lemma StemFixedPoint(s: string)
    ensures Stem(s) == s <==> AllWordChars(s)
  {
    if AllWordChars(s) {
      assert ReplaceDots(s) == s;
    }
  }

  /** Sanitizing an already sanitized name changes nothing. */
  lemma StemIdempotent(s: string)
    ensures Stem(Stem(s)) == Stem(s)
  {
    StemFixedPoint(Stem(s));
  }

  lemma ReplaceDotsConcat(a: string, b: string)
    ensures ReplaceDots(a + b) == ReplaceDots(a) + ReplaceDots(b)
  {
  }

  lemma {:induction false} StripDisallowedConcat(a: string, b: string)
    ensures StripDisallowed(a + b) == StripDisallowed(a) + StripDisallowed(b)
  {
    if a != [] {
      StripDisallowedConcat(a[1..], b);
      var ab := a + b;
      assert ab[0] == a[0] && ab[1..] == a[1..] + b;
      var x, y := StripDisallowed(a[1..]), StripDisallowed(b);
      if IsWordChar(a[0]) {
        assert StripDisallowed(ab) == [a[0]] + (x + y);
        assert StripDisallowed(a) == [a[0]] + x;
        assert [a[0]] + (x + y) == ([a[0]] + x) + y;
      } else {
        assert StripDisallowed(ab) == x + y;
        assert StripDisallowed(a) == x;
      }
    } else {
      assert a + b == b;
    }
  }

  /** Sanitizing works character by character, so it distributes over concatenation. */
  lemma StemConcat(a: string, b: string)
    ensures Stem(a + b) == Stem(a) + Stem(b)
  {
    ReplaceDotsConcat(a, b);
    StripDisallowedConcat(ReplaceDots(a), ReplaceDots(b));
  }

  /** An underscore between two parts survives sanitizing, and each side is sanitized alone. */
  lemma StemAroundUnderscore(a: string, b: string)
    ensures Stem(a + "_" + b) == Stem(a) + "_" + Stem(b)
  {
    StemConcat(a + "_", b);
    StemConcat(a, "_");
    StemFixedPoint("_");
  }

  /** No word character is whitespace, so a stem is blank only when it is empty: the
      `.strip()` on line 37 never removes anything. */
  lemma BlankWordString(s: string)
    requires AllWordChars(s)
    ensures IsBlank(s) <==> s == []
  {
    if s != [] {
      assert IsWordChar(s[0]) && !IsPySpace(s[0]);
    }
  }

  /** Lines 33-41: the file name for a base name. */
  function SanitizedName(base: string): (r: string)
    ensures Stem(base) == [] ==> r == "default_name.txt"
    ensures Stem(base) != [] ==> r == Stem(base) + ".txt"
    ensures |r| > 4 && AllWordChars(r[..|r| - 4]) && r[|r| - 4..] == ".txt"
  {
    var stem := Stem(base);
    BlankWordString(stem);
    var name := if IsBlank(stem) then DefaultName else stem;
    assert (name + Extension)[..|name + Extension| - 4] == name;
    name + Extension
  }

  /** Line 30: the base name `{date}_{title}_{edition}_{sequence}`. */
  function BaseName(date: string, title: string, edition: string, sequence: string): string {
    date + "_" + title + "_" + edition + "_" + sequence
  }

  /** The file name of an item: word characters followed by `.txt`. */
  function FileName(date: string, title: string, edition: string, sequence: string): (r: string)
    ensures |r| > 4 && AllWordChars(r[..|r| - 4]) && r[|r| - 4..] == ".txt"
  {
    SanitizedName(BaseName(date, title, edition, sequence))
  }

  /** Each part of the base name is sanitized on its own and the three joining underscores
      stay in place. */
  lemma FileNameParts(date: string, title: string, edition: string, sequence: string)
    ensures FileName(date, title, edition, sequence)
         == Stem(date) + "_" + Stem(title) + "_" + Stem(edition) + "_" + Stem(sequence) + ".txt"
  {
    StemAroundUnderscore(date + "_" + title + "_" + edition, sequence);
    StemAroundUnderscore(date + "_" + title, edition);
    StemAroundUnderscore(date, title);
  }

  /** The three joining underscores always survive, so the fallback name is never used for an
      item's file, whatever its parts. */
  lemma FileNameNeverDefault(date: string, title: string, edition: string, sequence: string)
    ensures FileName(date, title, edition, sequence) != DefaultName + Extension
  {
    FileNameParts(date, title, edition, sequence);
    var stem := Stem(date) + "_" + Stem(title) + "_" + Stem(edition) + "_" + Stem(sequence);
    UnderscoreCount(Stem(date), Stem(title), Stem(edition), Stem(sequence));
    DifferentStems(stem, DefaultName);
  }

  lemma DifferentStems(a: string, b: string)
    requires multiset(a)['_'] >= 3 && b == DefaultName
    ensures a + Extension != b + Extension
  {
    DefaultNameUnderscores();
    assert a != b;
    assert (a + Extension)[..|a|] == a;
    assert (b + Extension)[..|b|] == b;
  }

  /** The fallback name holds a single underscore. */
  lemma DefaultNameUnderscores()
    ensures multiset(DefaultName)['_'] == 1
  {
    assert DefaultName == "default" + "_" + "name";
    SingleUnderscore("default", "name");
  }

  lemma SingleUnderscore(front: string, back: string)
    requires '_' !in front && '_' !in back
    ensures multiset(front + "_" + back)['_'] == 1
  {
    assert multiset(front + "_" + back) == multiset(front) + multiset("_") + multiset(back);
  }

  lemma UnderscoreCount(a: string, b: string, c: string, d: string)
    ensures multiset(a + "_" + b + "_" + c + "_" + d)['_'] >= 3
  {
    assert multiset(a + "_" + b + "_" + c + "_" + d)
        == multiset(a) + multiset("_") + multiset(b) + multiset("_") + multiset(c) + multiset("_") + multiset(d);
  }
}
