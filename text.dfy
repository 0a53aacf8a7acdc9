/**
 * String helpers the calendar relies on from the Java library: whitespace
 * stripping (String.strip, stripLeading, stripTrailing, trim, isBlank),
 * String.split("\n", -1), String.join and character replacement.
 *
 * One whitespace predicate stands for both of Java's notions: trim() drops
 * every character up to U+0020, strip() and isBlank() drop what
 * Character.isWhitespace accepts. IsWhitespace is the set both agree on.
 */
module Text {

  /** The ASCII whitespace on which trim() and strip() agree. */
  predicate IsWhitespace(c: char) {
    c == ' ' || c == '\t' || c == '\n' || c == '\U{B}' || c == '\U{C}' || c == '\r'
    || ('\U{1C}' <= c <= '\U{1F}')
  }

  /** String.isBlank: empty or only whitespace. */
  predicate IsBlank(s: string) {
    forall i | 0 <= i < |s| :: IsWhitespace(s[i])
  }

  /** The end of s up to j with its whitespace suffix cut off: the length the stripped prefix s[..j] keeps. */
  function TrimEnd(s: string, j: nat): (k: nat)
    requires j <= |s|
    ensures k <= j
    ensures k == 0 || !IsWhitespace(s[k - 1])
    ensures forall m | k <= m < j :: IsWhitespace(s[m])
  {
    if j > 0 && IsWhitespace(s[j - 1]) then TrimEnd(s, j - 1) else j
  }

  /** String.stripLeading: drops the longest whitespace prefix. */
  function StripLeading(s: string): (r: string)
    ensures |r| <= |s|
    ensures r == [] || !IsWhitespace(r[0])
  {
    if s == [] || !IsWhitespace(s[0]) then s else StripLeading(s[1..])
  }

  /** What stripLeading keeps is a suffix, and what it drops is whitespace. */
  lemma {:induction false} StripLeadingSuffix(s: string)
    ensures var r := StripLeading(s);
            r == s[|s| - |r|..] && forall i | 0 <= i < |s| - |r| :: IsWhitespace(s[i])
  {
    if s != [] && IsWhitespace(s[0]) {
      var r := StripLeading(s[1..]);
      StripLeadingSuffix(s[1..]);
      assert s[1..][|s| - 1 - |r|..] == s[|s| - |r|..];
      forall i | 0 <= i < |s| - |r| ensures IsWhitespace(s[i]) {
        if i > 0 { assert s[i] == s[1..][i - 1]; }
      }
    }
  }

  /** String.stripTrailing: drops the longest whitespace suffix. */
  function StripTrailing(s: string): (r: string)
    ensures |r| <= |s|
    ensures r == [] || !IsWhitespace(r[|r| - 1])
  {
    s[..TrimEnd(s, |s|)]
  }

  /** String.strip (and, within IsWhitespace, String.trim). */
  function Strip(s: string): (r: string)
    ensures r == [] || (!IsWhitespace(r[0]) && !IsWhitespace(r[|r| - 1]))
  {
    StripTrailing(StripLeading(s))
  }

  /** Only a blank string strips to nothing. */
  lemma StripEmptyIffBlank(s: string)
    ensures Strip(s) == [] <==> IsBlank(s)
  {
    var l := StripLeading(s);
    StripLeadingSuffix(s);
    if Strip(s) == [] {
      assert TrimEnd(l, |l|) == 0 && l == [];
    }
  }

  /** A string without whitespace at its start strips its start to itself. */
  lemma StripLeadingOfTrimmed(s: string)
    requires s == [] || !IsWhitespace(s[0])
    ensures StripLeading(s) == s
  {
  }

  /** One space in front of a string without leading whitespace is all stripLeading drops. */
  lemma StripLeadingAfterSpace(s: string)
    requires s == [] || !IsWhitespace(s[0])
    ensures StripLeading(" " + s) == s
  {
    assert (" " + s)[1..] == s;
  }

  /** A string without whitespace at its end strips its end to itself. */
  lemma StripTrailingOfTrimmed(s: string)
    requires s == [] || !IsWhitespace(s[|s| - 1])
    ensures StripTrailing(s) == s
  {
  }

  /** A string without whitespace at either end strips to itself. */
  lemma StripOfTrimmed(s: string)
    requires s == [] || (!IsWhitespace(s[0]) && !IsWhitespace(s[|s| - 1]))
    ensures Strip(s) == s
  {
    StripLeadingOfTrimmed(s);
    StripTrailingOfTrimmed(s);
  }

  /** A stripped string strips to itself. */
  lemma StripIdempotent(s: string)
    ensures Strip(Strip(s)) == Strip(s)
  {
    StripOfTrimmed(Strip(s));
  }

  /** Dropping leading whitespace adds no character. */
  lemma StripLeadingKeepsAbsent(s: string, c: char)
    requires c !in s
    ensures c !in StripLeading(s)
  {
    var l := StripLeading(s);
    StripLeadingSuffix(s);
    assert forall k | 0 <= k < |l| :: l[k] == s[|s| - |l| + k];
  }

  /** A character of a stripped string is a character of the string. */
  lemma StripKeepsChars(s: string, c: char)
    requires c in Strip(s)
    ensures c in s
  {
    var l := StripLeading(s);
    StripLeadingSuffix(s);
    var r := Strip(s);
    var k :| 0 <= k < |r| && r[k] == c;
    assert l[k] == c;
    assert s[|s| - |l| + k] == c;
  }

  /** Stripping adds no character. */
  lemma StripKeepsAbsent(s: string, c: char)
    requires c !in s
    ensures c !in Strip(s)
  {
    if c in Strip(s) {
      StripKeepsChars(s, c);
    }
  }

  /** Replaces every occurrence of `from` by `to` (String.replace(char, char)). */
  function Replace(s: string, from: char, to: char): (r: string)
    ensures |r| == |s|
    ensures forall i | 0 <= i < |s| :: r[i] == (if s[i] == from then to else s[i])
  {
    seq(|s|, i requires 0 <= i < |s| => if s[i] == from then to else s[i])
  }

  /** After replacing `from` by another character, `from` no longer occurs. */
  lemma ReplaceRemoves(s: string, from: char, to: char)
    requires from != to
    ensures from !in Replace(s, from, to)
  {
  }

  /** Replacing by a character other than c adds no c. */
  lemma ReplaceKeepsAbsent(s: string, from: char, to: char, c: char)
    requires c !in s && c != to
    ensures c !in Replace(s, from, to)
  {
  }

  /**
   * String.split(sep, -1) for a one-character separator: every occurrence
   * splits, empty pieces (also a trailing one) are kept, and a string without
   * the separator gives itself as the only piece.
   */
  function Split(s: string, sep: char): (r: seq<string>)
    ensures |r| >= 1
    ensures forall k | 0 <= k < |r| :: sep !in r[k]
  {
    if s == [] then [""]
    else
      var rest := Split(s[1..], sep);
      if s[0] == sep then [""] + rest
      else [[s[0]] + rest[0]] + rest[1..]
  }

  /** String.join(sep, items). */
  function Join(items: seq<string>, sep: char): (r: string)
    ensures |items| == 1 ==> r == items[0]
  {
    if items == [] then ""
    else if |items| == 1 then items[0]
    else items[0] + [sep] + Join(items[1..], sep)
  }

  /** Joining one more item adds the separator and the item at the end. */
  lemma {:induction false} JoinSnoc(items: seq<string>, x: string, sep: char)
    requires items != []
    ensures Join(items + [x], sep) == Join(items, sep) + [sep] + x
  {
    if |items| == 1 {
      assert (items + [x])[1..] == [x];
    } else {
      assert (items + [x])[1..] == items[1..] + [x];
      JoinSnoc(items[1..], x, sep);
    }
  }

  lemma {:induction false} SplitPrefix(a: string, t: string, sep: char)
    requires sep !in a
    ensures Split(a + t, sep) == [a + Split(t, sep)[0]] + Split(t, sep)[1..]
  {
    if a != [] {
      assert (a + t)[1..] == a[1..] + t;
      SplitPrefix(a[1..], t, sep);
      var r := Split(t, sep);
      var rest := Split(a[1..] + t, sep);
      assert rest == [a[1..] + r[0]] + r[1..];
      assert (a + t)[0] == a[0] != sep;
      assert Split(a + t, sep) == [[a[0]] + rest[0]] + rest[1..];
      assert [a[0]] + (a[1..] + r[0]) == a + r[0];
    } else {
      var r := Split(t, sep);
      assert a + t == t && a + r[0] == r[0];
      assert [r[0]] + r[1..] == r;
    }
  }

  /** Splitting undoes joining when no item holds the separator. */
  lemma {:induction false} SplitJoin(items: seq<string>, sep: char)
    requires |items| >= 1
    requires forall k | 0 <= k < |items| :: sep !in items[k]
    ensures Split(Join(items, sep), sep) == items
  {
    if |items| == 1 {
      SplitPrefix(items[0], "", sep);
      assert items[0] + "" == items[0];
    } else {
      var rest := Join(items[1..], sep);
      SplitJoin(items[1..], sep);
      assert Join(items, sep) == items[0] + ([sep] + rest);
      SplitPrefix(items[0], [sep] + rest, sep);
      assert ([sep] + rest)[1..] == rest;
      assert Split([sep] + rest, sep) == [""] + Split(rest, sep);
      assert items[0] + "" == items[0];
    }
  }

  /** Putting a character in front of the first item puts it in front of the joined text. */
  lemma JoinConsFirst(c: char, items: seq<string>, sep: char)
    requires |items| >= 1
    ensures Join([[c] + items[0]] + items[1..], sep) == [c] + Join(items, sep)
  {
    var r := [[c] + items[0]] + items[1..];
    if |items| > 1 {
      assert r[1..] == items[1..];
    }
  }

  /** Joining undoes splitting. */
  lemma {:induction false} JoinSplit(s: string, sep: char)
    ensures Join(Split(s, sep), sep) == s
  {
    if s != [] {
      JoinSplit(s[1..], sep);
      var rest := Split(s[1..], sep);
      if s[0] == sep {
        assert Join([""] + rest, sep) == "" + [sep] + Join(rest, sep);
      } else {
        JoinConsFirst(s[0], rest, sep);
      }
      assert s == [s[0]] + s[1..];
    }
  }
}
