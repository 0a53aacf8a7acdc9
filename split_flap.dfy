/**
 * The split-flap display of the day window (SplitFlapDisplay): a grid of
 * character wheels. Every wheel turns through a fixed character set, only
 * forwards; showing a text wraps it into lines and sets the target grid, and
 * each animation step turns the wheels of the rows and columns that have
 * started a few characters towards their targets.
 *
 * Painting, fonts, the preferred size and the Swing timer itself are not
 * modelled; whether the timer runs is a boolean field, and one timer tick is
 * one call of Step.
 */
module SplitFlap {
  import opened Wrappers
  import opened Text
  import opened Arith

  // ----- the character wheel -----

  /** The n characters with consecutive code points from `first` on. */
  function Run(first: int, n: nat): (s: string)
    requires 0 <= first && first + n <= 0xD800
    ensures |s| == n && forall i | 0 <= i < n :: s[i] as int == first + i
  {
    seq(n, i requires 0 <= i < n => (first + i) as char)
  }

  const Letters: string := Run(65, 26)
  const Umlauts: string := "\U{C4}\U{D6}\U{DC}\U{DF}"
  const Digits: string := Run(48, 10)
  const Punctuation: string := ".,:;!?-+*/()[]\"'"

  /** CHARSET: space, A to Z, the German umlauts and sharp s, digits and punctuation, in wheel order. */
  const Charset: string := " " + Letters + Umlauts + Digits + Punctuation

  /** The number of wheel positions, CHARSET.length(). */
  const WheelSize: int := 57

  lemma CharsetSize()
    ensures |Charset| == WheelSize
  {
  }

  // The layout of CHARSET by character groups, as a closed form: WheelChar
  // is charAt and Position is indexOf. The model itself uses CHARSET and
  // indexOf as the source does; these serve the proofs about them.

  /** The k-th punctuation character of the wheel. */
  function PunctuationChar(k: int): char
    requires 0 <= k < 16
  {
    match k
    case 0 => '.'
    case 1 => ','
    case 2 => ':'
    case 3 => ';'
    case 4 => '!'
    case 5 => '?'
    case 6 => '-'
    case 7 => '+'
    case 8 => '*'
    case 9 => '/'
    case 10 => '('
    case 11 => ')'
    case 12 => '['
    case 13 => ']'
    case 14 => '"'
    case _ => '\''
  }

  /** The position of a punctuation character in its group, or -1. */
  function PunctuationIndex(c: char): (k: int)
    ensures -1 <= k < 16
    ensures k >= 0 ==> PunctuationChar(k) == c
  {
    match c
    case '.' => 0
    case ',' => 1
    case ':' => 2
    case ';' => 3
    case '!' => 4
    case '?' => 5
    case '-' => 6
    case '+' => 7
    case '*' => 8
    case '/' => 9
    case '(' => 10
    case ')' => 11
    case '[' => 12
    case ']' => 13
    case '"' => 14
    case '\'' => 15
    case _ => -1
  }

  /** The character at wheel position i, by the layout of the character groups. */
  function WheelChar(i: int): char
    requires 0 <= i < WheelSize
  {
    if i == 0 then ' '
    else if i < 27 then (64 + i) as char
    else if i == 27 then '\U{C4}'
    else if i == 28 then '\U{D6}'
    else if i == 29 then '\U{DC}'
    else if i == 30 then '\U{DF}'
    else if i < 41 then (i - 31 + 48) as char
    else PunctuationChar(i - 41)
  }

  /** The wheel position of c, by the layout of the character groups, or -1 when c is not on the wheel. */
  function Position(c: char): (i: int)
    ensures -1 <= i < WheelSize
    ensures i >= 0 ==> WheelChar(i) == c
  {
    if c == ' ' then 0
    else if 'A' <= c <= 'Z' then c as int - 64
    else if c == '\U{C4}' then 27
    else if c == '\U{D6}' then 28
    else if c == '\U{DC}' then 29
    else if c == '\U{DF}' then 30
    else if '0' <= c <= '9' then c as int - 48 + 31
    else
      var k := PunctuationIndex(c);
      if k >= 0 then 41 + k else -1
  }

  /** Every wheel position is the position of its character, so no character appears twice on the wheel. */
  lemma PositionOfWheelChar(i: int)
    requires 0 <= i < WheelSize
    ensures Position(WheelChar(i)) == i
  {
    if 41 <= i {
      var k := i - 41;
      assert k == 0 || k == 1 || k == 2 || k == 3 || k == 4 || k == 5 || k == 6 || k == 7
          || k == 8 || k == 9 || k == 10 || k == 11 || k == 12 || k == 13 || k == 14 || k == 15;
    }
  }

  /** The closed form agrees with the CHARSET string at every position. */
  lemma WheelCharIsCharset(i: int)
    requires 0 <= i < WheelSize
    ensures Charset[i] == WheelChar(i)
  {
    if 1 <= i < 27 {
      assert Charset[i] == Letters[i - 1];
    } else if 31 <= i < 41 {
      assert Charset[i] == Digits[i - 31];
    } else if 41 <= i {
      var k := i - 41;
      assert Charset[i] == Punctuation[k];
      assert k == 0 || k == 1 || k == 2 || k == 3 || k == 4 || k == 5 || k == 6 || k == 7
          || k == 8 || k == 9 || k == 10 || k == 11 || k == 12 || k == 13 || k == 14 || k == 15;
    }
  }

  /** String.indexOf(c) from position `from` on. */
  function Find(s: string, c: char, from: nat): (i: int)
    requires from <= |s|
    ensures -1 <= i < |s|
    decreases |s| - from
  {
    if from == |s| then -1 else if s[from] == c then from else Find(s, c, from + 1)
  }

  /** Find gives the first position from `from` on holding c, or -1 when there is none. */
  lemma {:induction false} FindFirst(s: string, c: char, from: nat)
    requires from <= |s|
    ensures var i := Find(s, c, from);
            (i >= 0 ==> from <= i && s[i] == c && forall j | from <= j < i :: s[j] != c)
            && (i < 0 ==> forall j | from <= j < |s| :: s[j] != c)
    decreases |s| - from
  {
    if from < |s| && s[from] != c {
      FindFirst(s, c, from + 1);
    }
  }

  /** CHARSET.indexOf(c). */
  function IndexOf(c: char): (i: int)
    ensures -1 <= i < WheelSize
  {
    Find(Charset, c, 0)
  }

  /** indexOf on CHARSET agrees with the layout of the character groups. */
  lemma IndexOfIsPosition(c: char)
    ensures IndexOf(c) == Position(c)
  {
    FindFirst(Charset, c, 0);
    var j := IndexOf(c);
    var p := Position(c);
    if p >= 0 {
      WheelCharIsCharset(p);
    }
    if j >= 0 {
      WheelCharIsCharset(j);
      PositionOfWheelChar(j);
    }
  }

  /** c is on the wheel: CHARSET.indexOf(c) >= 0. */
  predicate IsWheelChar(c: char) {
    IndexOf(c) >= 0
  }

  /** The wheel characters are exactly the characters of CHARSET, each found at its position. */
  lemma IndexOfFound(c: char)
    ensures IsWheelChar(c) <==> c in Charset
    ensures IsWheelChar(c) ==> Charset[IndexOf(c)] == c
  {
    FindFirst(Charset, c, 0);
  }

  /** indexOf finds every wheel character at its own position. */
  lemma IndexOfCharset(i: int)
    requires 0 <= i < WheelSize
    ensures IndexOf(Charset[i]) == i
  {
    WheelCharIsCharset(i);
    PositionOfWheelChar(i);
    IndexOfIsPosition(Charset[i]);
  }

  /** Character.toUpperCase for every character whose upper case is on the wheel; other characters are kept. */
  function ToUpper(c: char): char {
    if 'a' <= c <= 'z' then (c as int - 32) as char
    else if c == '\U{E4}' then '\U{C4}'
    else if c == '\U{F6}' then '\U{D6}'
    else if c == '\U{FC}' then '\U{DC}'
    else if c == '\U{131}' then 'I'
    else if c == '\U{17F}' then 'S'
    else c
  }

  /** Characters on the wheel are their own upper case. */
  lemma ToUpperOnWheel(c: char)
    requires IsWheelChar(c)
    ensures ToUpper(c) == c
  {
    IndexOfIsPosition(c);
    var k := PunctuationIndex(c);
    assert k >= 0 ==> PunctuationChar(k) == c;
  }

  /**
   * normalize: a character of CHARSET is kept, since it is its own upper
   * case; any other becomes its upper case when CHARSET holds that, and a
   * space otherwise. NormalizeIsUpperCase states it as the source does.
   */
  function Normalize(c: char): (r: char)
    ensures r == c || r == ToUpper(c) || r == ' '
  {
    if IndexOf(c) >= 0 then c
    else
      var up := ToUpper(c);
      if IndexOf(up) >= 0 then up else ' '
  }

  /** normalize as the source writes it: the upper case of c when CHARSET holds it, otherwise a space. */
  lemma NormalizeIsUpperCase(c: char)
    ensures Normalize(c) == if IndexOf(ToUpper(c)) >= 0 then ToUpper(c) else ' '
  {
    if IndexOf(c) >= 0 {
      ToUpperOnWheel(c);
    }
  }

  /** normalize always gives a character of the wheel. */
  lemma NormalizeIsWheelChar(c: char)
    ensures IsWheelChar(Normalize(c))
  {
    IndexOfCharset(0);
  }

  /** normalize in terms of CHARSET: the upper case when CHARSET holds it, else a space. */
  lemma NormalizeInCharset(c: char)
    ensures Normalize(c) in Charset
    ensures ToUpper(c) in Charset ==> Normalize(c) == ToUpper(c)
    ensures ToUpper(c) !in Charset ==> Normalize(c) == ' '
  {
    var n := Normalize(c);
    NormalizeIsWheelChar(c);
    IndexOfFound(n);
    NormalizeIsUpperCase(c);
    IndexOfFound(ToUpper(c));
  }

  /** Characters on the wheel normalize to themselves. */
  lemma NormalizeOnWheel(c: char)
    requires IsWheelChar(c)
    ensures Normalize(c) == c
  {
    ToUpperOnWheel(c);
  }

  /** Normalizing twice is normalizing once. */
  lemma NormalizeIdempotent(c: char)
    ensures Normalize(Normalize(c)) == Normalize(c)
  {
    NormalizeIsWheelChar(c);
    NormalizeOnWheel(Normalize(c));
  }

  /** Lower-case letters show as their capitals, also the umlauts; the sharp s shows as itself. */
  lemma NormalizeLowerCase()
    ensures Normalize('a') == 'A' && Normalize('\U{E4}') == '\U{C4}' && Normalize('\U{DF}') == '\U{DF}'
  {
    IndexOfIsPosition('a');
    IndexOfIsPosition('\U{E4}');
    IndexOfIsPosition('A');
    IndexOfIsPosition('\U{C4}');
    IndexOfIsPosition('\U{DF}');
  }

  /** Characters with no upper case on the wheel show as a space. */
  lemma NormalizeOffWheel()
    ensures Normalize('\U{E9}') == ' ' && Normalize('#') == ' '
  {
    IndexOfIsPosition('\U{E9}');
    IndexOfIsPosition('#');
  }

  /** The position after i, the last wrapping round to the first. */
  function NextPosition(i: int): (j: int)
    requires 0 <= i < WheelSize
    ensures 0 <= j < WheelSize
  {
    if i + 1 < WheelSize then i + 1 else 0
  }

  /** NextPosition is the remainder (i + 1) % CHARSET.length() that the source computes. */
  lemma NextPositionIsRemainder(i: int)
    requires 0 <= i < WheelSize
    ensures NextPosition(i) == (i + 1) % WheelSize
  {
    if i + 1 < WheelSize {
      DivModUnique(i + 1, WheelSize, 0, i + 1);
    } else {
      DivModUnique(i + 1, WheelSize, 1, 0);
    }
  }

  /** nextChar: the wheel position after that of normalize(c), the last wrapping to the space. */
  function NextChar(c: char): (r: char)
    ensures IndexOf(r) >= 0
  {
    var i := IndexOf(Normalize(c));
    var idx := if i < 0 then 0 else i;
    IndexOfCharset(NextPosition(idx));
    Charset[NextPosition(idx)]
  }

  /** nextChar always gives a character of the wheel. */
  lemma NextCharIsWheelChar(c: char)
    ensures IsWheelChar(NextChar(c))
  {
    var i := IndexOf(Normalize(c));
    var idx := if i < 0 then 0 else i;
    IndexOfCharset(NextPosition(idx));
  }

  /** One turn moves a wheel character to the next position, the last one back to the first. */
  lemma NextCharStep(i: int)
    requires 0 <= i < WheelSize
    ensures NextChar(Charset[i]) == Charset[NextPosition(i)]
  {
    IndexOfCharset(i);
    NormalizeOnWheel(Charset[i]);
  }

  lemma NextCharWraps()
    ensures NextChar('\'') == ' '
    ensures NextChar('z') == '\U{C4}'
    ensures NextChar('Z') == '\U{C4}'
  {
    WheelCharIsCharset(56);
    NextCharStep(56);
    WheelCharIsCharset(0);
    WheelCharIsCharset(26);
    IndexOfIsPosition('z');
    IndexOfIsPosition('Z');
    assert Normalize('z') == 'Z';
    IndexOfCharset(26);
    NextCharStep(26);
    WheelCharIsCharset(27);
  }

  /** The character after k turns of nextChar. */
  function Advance(c: char, k: nat): char {
    if k == 0 then c else NextChar(Advance(c, k - 1))
  }

  lemma AdvanceStep(c: char, k: nat)
    requires k > 0
    ensures Advance(c, k) == NextChar(Advance(c, k - 1))
  {
  }

  /** A wheel character stays on the wheel however often it turns, and any character is on it after one turn. */
  lemma AdvanceIsWheelChar(c: char, k: nat)
    requires k > 0 || IsWheelChar(c)
    ensures IsWheelChar(Advance(c, k))
  {
    if k > 0 {
      NextCharIsWheelChar(Advance(c, k - 1));
    }
  }

  /** Position i moved on k places around the wheel, for less than a full turn. */
  function WheelAdd(i: int, k: int): (j: int)
    requires 0 <= i < WheelSize && 0 <= k < WheelSize
    ensures 0 <= j < WheelSize
    ensures j == i + k || j == i + k - WheelSize
  {
    if i + k < WheelSize then i + k else i + k - WheelSize
  }

  /** Wheel characters at the same position are the same character. */
  lemma IndexOfInjective(x: char, y: char)
    requires IsWheelChar(x) && IsWheelChar(y) && IndexOf(x) == IndexOf(y)
    ensures x == y
  {
    IndexOfFound(x);
    IndexOfFound(y);
  }

  /** One turn moves a wheel character to the next position. */
  lemma NextCharIndex(x: char)
    requires IsWheelChar(x)
    ensures IsWheelChar(NextChar(x)) && IndexOf(NextChar(x)) == NextPosition(IndexOf(x))
  {
    NormalizeOnWheel(x);
    IndexOfCharset(NextPosition(IndexOf(x)));
  }

  /** k turns move a wheel character k positions on, wrapping past the end. */
  lemma {:induction false} AdvanceIndex(c: char, k: nat)
    requires IsWheelChar(c) && k < WheelSize
    ensures IsWheelChar(Advance(c, k)) && IndexOf(Advance(c, k)) == WheelAdd(IndexOf(c), k)
  {
    if k > 0 {
      var x := Advance(c, k - 1);
      AdvanceIndex(c, k - 1);
      NextCharIndex(x);
    }
  }

  /** distanceForward: how many forward turns take normalize(a) to normalize(b). */
  function DistanceForward(a: char, b: char): (d: int)
    ensures 0 <= d < WheelSize
  {
    var i := IndexOf(Normalize(a));
    var j := IndexOf(Normalize(b));
    var ia := if i < 0 then 0 else i;
    var ib := if j < 0 then 0 else j;
    var d := ib - ia;
    if d < 0 then d + WheelSize else d
  }

  /** The distance is zero exactly when both characters show the same. */
  lemma DistanceZeroIff(a: char, b: char)
    ensures DistanceForward(a, b) == 0 <==> Normalize(a) == Normalize(b)
  {
    NormalizeIsWheelChar(a);
    NormalizeIsWheelChar(b);
    if DistanceForward(a, b) == 0 {
      IndexOfInjective(Normalize(a), Normalize(b));
    }
  }

  /** Turning normalize(a) the forward distance reaches normalize(b). */
  lemma DistanceReaches(a: char, b: char)
    ensures Advance(Normalize(a), DistanceForward(a, b)) == Normalize(b)
  {
    var na := Normalize(a);
    var nb := Normalize(b);
    NormalizeIsWheelChar(a);
    NormalizeIsWheelChar(b);
    var d := DistanceForward(a, b);
    AdvanceIndex(na, d);
    IndexOfInjective(Advance(na, d), nb);
  }

  /** Turning fewer times than the distance leaves exactly the rest of the distance: a wheel never passes its target. */
  lemma DistanceAfterAdvance(a: char, b: char, k: nat)
    requires k <= DistanceForward(a, b)
    ensures DistanceForward(Advance(Normalize(a), k), b) == DistanceForward(a, b) - k
  {
    var na := Normalize(a);
    NormalizeIsWheelChar(a);
    AdvanceIndex(na, k);
    NormalizeOnWheel(Advance(na, k));
  }

  // ----- word wrapping -----

  /** replace('\r', ' ').replace('\n', ' '): line breaks become spaces. */
  function Flatten(text: string): (flat: string)
    ensures |flat| == |text|
    ensures forall i | 0 <= i < |text| :: flat[i] == (if text[i] == '\r' || text[i] == '\n' then ' ' else text[i])
    ensures '\n' !in flat && '\r' !in flat
  {
    var once := Replace(text, '\r', ' ');
    ReplaceRemoves(text, '\r', ' ');
    ReplaceKeepsAbsent(once, '\n', ' ', '\r');
    ReplaceRemoves(once, '\n', ' ');
    Replace(once, '\n', ' ')
  }

  /** The text wrapToLines works on: the flattened text with surrounding whitespace stripped. */
  function Prepare(text: string): (t: string)
    ensures '\n' !in t && '\r' !in t
  {
    var flat := Flatten(text);
    StripKeepsAbsent(flat, '\n');
    StripKeepsAbsent(flat, '\r');
    Strip(flat)
  }

  /** String.lastIndexOf(c): the last position holding c, or -1. */
  function LastIndexOf(s: string, c: char): (i: int)
    ensures -1 <= i < |s|
    ensures i >= 0 ==> s[i] == c && forall j | i < j < |s| :: s[j] != c
    ensures i < 0 ==> c !in s
  {
    if s == [] then -1
    else if s[|s| - 1] == c then |s| - 1
    else LastIndexOf(s[..|s| - 1], c)
  }

  /** The position after the run of spaces starting at i. */
  function SkipSpaces(t: string, i: int): (j: int)
    requires 0 <= i <= |t|
    ensures i <= j <= |t|
    ensures forall k | i <= k < j :: t[k] == ' '
    ensures j == |t| || t[j] != ' '
    decreases |t| - i
  {
    if i < |t| && t[i] == ' ' then SkipSpaces(t, i + 1) else i
  }

  /**
   * The chunk for one line starting at i and the position after it: up to
   * `width` characters, cut back to the last space when the text goes on and
   * that space is at least half a line in.
   */
  function NextChunk(t: string, i: int, width: nat): (r: (string, int))
    requires 0 <= i < |t|
    ensures |r.0| <= width && i <= r.1 <= |t|
  {
    var end := Min(|t|, i + width);
    var chunk := t[i..end];
    var lastSpace := LastIndexOf(chunk, ' ');
    if end < |t| && lastSpace >= Max(0, width / 2) then (chunk[..lastSpace], i + lastSpace + 1)
    else (chunk, end)
  }

  /** What a wrapped line is: at most `width` long, no trailing whitespace, no line feed. */
  predicate IsDisplayLine(line: string, width: nat) {
    |line| <= width && (line == [] || !IsWhitespace(line[|line| - 1])) && '\n' !in line
  }

  /** The stripped chunk of a text without line feeds is a display line. */
  lemma ChunkLine(t: string, i: int, width: nat)
    requires 0 <= i < |t| && '\n' !in t
    ensures IsDisplayLine(StripTrailing(NextChunk(t, i, width).0), width)
  {
    var chunk := NextChunk(t, i, width).0;
    var end := Min(|t|, i + width);
    assert forall j | 0 <= j < |chunk| :: chunk[j] == t[i + j];
    var line := StripTrailing(chunk);
    assert forall j | 0 <= j < |line| :: line[j] == chunk[j];
  }

  /** The lines wrapped from position i on, with at most `count` lines left. */
  function WrapFrom(t: string, i: int, count: int, width: nat): (lines: seq<string>)
    requires 0 <= i <= |t| && '\n' !in t
    ensures |lines| <= Max(0, count)
    ensures i < |t| && count >= 1 ==> |lines| >= 1
    decreases count
  {
    if i >= |t| || count <= 0 then []
    else
      var (chunk, end) := NextChunk(t, i, width);
      [StripTrailing(chunk)] + WrapFrom(t, SkipSpaces(t, end), count - 1, width)
  }

  /** Every wrapped line is a display line. */
  lemma {:induction false} WrapFromLines(t: string, i: int, count: int, width: nat)
    requires 0 <= i <= |t| && '\n' !in t
    ensures forall k | 0 <= k < |WrapFrom(t, i, count, width)| :: IsDisplayLine(WrapFrom(t, i, count, width)[k], width)
    decreases count
  {
    if i < |t| && count > 0 {
      var (chunk, end) := NextChunk(t, i, width);
      ChunkLine(t, i, width);
      WrapFromLines(t, SkipSpaces(t, end), count - 1, width);
    }
  }

  /**
   * wrapToLines: a blank text is one empty line; otherwise at least one and
   * at most `maxLines` lines (when `maxLines` is positive).
   */
  function WrapLines(text: string, maxLines: int, width: nat): (lines: seq<string>)
    ensures Prepare(text) == [] ==> lines == [""]
    ensures Prepare(text) != [] ==> |lines| <= Max(0, maxLines)
    ensures Prepare(text) != [] && maxLines >= 1 ==> |lines| >= 1
  {
    var t := Prepare(text);
    if t == [] then [""] else WrapFrom(t, 0, maxLines, width)
  }

  /** Each line wrapToLines gives is at most `width` long, has no trailing whitespace and no line feed. */
  lemma WrapLinesFit(text: string, maxLines: int, width: nat)
    ensures forall k | 0 <= k < |WrapLines(text, maxLines, width)| :: IsDisplayLine(WrapLines(text, maxLines, width)[k], width)
  {
    if Prepare(text) != [] {
      WrapFromLines(Prepare(text), 0, maxLines, width);
    }
  }

  /** A text that fits on one line is shown as it is, after stripping and flattening. */
  lemma WrapShortText(text: string, maxLines: int, width: nat)
    requires maxLines >= 1 && 0 < |Prepare(text)| <= width
    ensures WrapLines(text, maxLines, width) == [Prepare(text)]
  {
    var t := Prepare(text);
    assert NextChunk(t, 0, width) == (t, |t|) by {
      assert t[0..|t|] == t;
    }
    assert SkipSpaces(t, |t|) == |t|;
    assert WrapFrom(t, |t|, maxLines - 1, width) == [];
    assert StripTrailing(t) == t;
    assert WrapFrom(t, 0, maxLines, width) == [t];
  }

  /** wrapToLines: flatten and strip the text, then cut it into lines. */
  method WrapToLines(text: string, maxLines: int, lineWidth: nat) returns (out: seq<string>)
    ensures out == WrapLines(text, maxLines, lineWidth)
  {
    var t := Prepare(text);
    if t == [] {
      return [""];
    }
    out := CutLines(t, maxLines, lineWidth);
  }

  /** The loop of wrapToLines: one chunk per line, the spaces after a chunk skipped. */
  method CutLines(t: string, maxLines: int, lineWidth: nat) returns (out: seq<string>)
    requires '\n' !in t
    ensures out == WrapFrom(t, 0, maxLines, lineWidth)
  {
    out := [];
    var i := 0;
    ghost var left := maxLines;
    while i < |t| && |out| < maxLines
      invariant 0 <= i <= |t| && left == maxLines - |out|
      invariant out + WrapFrom(t, i, left, lineWidth) == WrapFrom(t, 0, maxLines, lineWidth)
      decreases left
    {
      var chunk, end := ChunkAt(t, i, lineWidth);
      WrapStep(t, i, left, lineWidth, chunk, end, out);
      out := out + [StripTrailing(chunk)];
      left := left - 1;
      i := SkipSpacesAt(t, end);
    }
  }

  /** The inner loop of wrapToLines: the spaces that would lead the next line are skipped. */
  method SkipSpacesAt(t: string, start: int) returns (i: int)
    requires 0 <= start <= |t|
    ensures i == SkipSpaces(t, start)
  {
    i := start;
    while i < |t| && t[i] == ' '
      invariant start <= i <= |t|
      invariant SkipSpaces(t, i) == SkipSpaces(t, start)
    {
      i := i + 1;
    }
  }

  /** The chunk wrapToLines cuts at position i: up to `width` characters, broken at a late space. */
  method ChunkAt(t: string, i: int, width: nat) returns (chunk: string, end: int)
    requires 0 <= i < |t|
    ensures (chunk, end) == NextChunk(t, i, width)
  {
    end := Min(|t|, i + width);
    chunk := t[i..end];
    if end < |t| {
      var lastSpace := LastIndexOf(chunk, ' ');
      if lastSpace >= Max(0, width / 2) {
        chunk := chunk[..lastSpace];
        end := i + lastSpace + 1;
      }
    }
  }

  /** One round of the loop in wrapToLines yields the next line. */
  lemma WrapStep(t: string, i: int, count: int, width: nat, chunk: string, end: int, done: seq<string>)
    requires 0 <= i < |t| && count >= 1 && '\n' !in t
    requires (chunk, end) == NextChunk(t, i, width)
    ensures 0 <= end <= |t|
    ensures done + WrapFrom(t, i, count, width) == (done + [StripTrailing(chunk)]) + WrapFrom(t, SkipSpaces(t, end), count - 1, width)
  {
    var rest := WrapFrom(t, SkipSpaces(t, end), count - 1, width);
    assert WrapFrom(t, i, count, width) == [StripTrailing(chunk)] + rest;
    assert done + ([StripTrailing(chunk)] + rest) == (done + [StripTrailing(chunk)]) + rest;
  }

  // ----- the animation, one cell at a time -----

  /**
   * One cell in one step: a cell showing its target stays; otherwise the
   * wheel turns forward by the distance to the target, but at most
   * `maxAdvances` times.
   */
  function StepCell(cur: char, tgt: char, maxAdvances: nat): (r: char)
  {
    if cur == tgt then cur else Advance(cur, Min(DistanceForward(cur, tgt), maxAdvances))
  }

  /** A cell on the wheel stays on the wheel. */
  lemma StepCellOnWheel(cur: char, tgt: char, maxAdvances: nat)
    requires IsWheelChar(cur)
    ensures IsWheelChar(StepCell(cur, tgt, maxAdvances))
  {
    if cur != tgt {
      AdvanceIsWheelChar(cur, Min(DistanceForward(cur, tgt), maxAdvances));
    }
  }

  /**
   * A cell never passes its target: one step takes `maxAdvances` off the
   * distance, and lands on the target when it was no farther than that.
   */
  lemma StepCellCloser(cur: char, tgt: char, maxAdvances: nat)
    requires IsWheelChar(cur) && IsWheelChar(tgt)
    ensures DistanceForward(StepCell(cur, tgt, maxAdvances), tgt) == DistanceForward(cur, tgt) - Min(DistanceForward(cur, tgt), maxAdvances)
  {
    NormalizeOnWheel(cur);
    NormalizeOnWheel(tgt);
    if cur != tgt {
      DistanceAfterAdvance(cur, tgt, Min(DistanceForward(cur, tgt), maxAdvances));
    }
  }

  /** A cell no farther from its target than `maxAdvances` lands on it. */
  lemma StepCellArrives(cur: char, tgt: char, maxAdvances: nat)
    requires IsWheelChar(cur) && IsWheelChar(tgt) && DistanceForward(cur, tgt) <= maxAdvances
    ensures StepCell(cur, tgt, maxAdvances) == tgt
  {
    NormalizeOnWheel(cur);
    NormalizeOnWheel(tgt);
    if cur != tgt {
      DistanceReaches(cur, tgt);
    }
  }

  /** Wheel characters are at distance zero exactly when they are the same character. */
  lemma SettledIffZero(cur: char, tgt: char)
    requires IsWheelChar(cur) && IsWheelChar(tgt)
    ensures DistanceForward(cur, tgt) == 0 <==> cur == tgt
  {
    NormalizeOnWheel(cur);
    NormalizeOnWheel(tgt);
    DistanceZeroIff(cur, tgt);
  }

  /** The distance left after n steps that each take up to m turns off (StepCellCloser). */
  function Remaining(d: nat, m: nat, n: nat): (rest: nat)
    ensures rest <= d
    decreases n
  {
    if n == 0 || d == 0 then d else Remaining(d - Min(d, m), m, n - 1)
  }

  /** The number of steps a cell at distance d needs when each step turns at most m times. */
  function StepsToSettle(d: nat, m: nat): (k: nat)
    requires m >= 1
    decreases d
  {
    if d == 0 then 0 else if d <= m then 1 else 1 + StepsToSettle(d - m, m)
  }

  /** StepsToSettle is d / m rounded up: the fewest steps of m that cover d. */
  lemma {:induction false} StepsToSettleBounds(d: nat, m: nat)
    requires m >= 1
    ensures StepsToSettle(d, m) * m >= d
    ensures StepsToSettle(d, m) >= 1 ==> (StepsToSettle(d, m) - 1) * m < d
    decreases d
  {
    if d > m {
      StepsToSettleBounds(d - m, m);
      var k := StepsToSettle(d - m, m);
      assert (k + 1) * m == k * m + m;
    }
  }

  /** Every cell settles: after StepsToSettle(d, m) steps, or any number more, no distance is left, and it stays so. */
  lemma {:induction false} RemainingSettles(d: nat, m: nat, n: nat)
    requires m >= 1 && n >= StepsToSettle(d, m)
    ensures Remaining(d, m, n) == 0
    decreases n
  {
    if n > 0 && d > 0 {
      RemainingSettles(d - Min(d, m), m, n - 1);
    }
  }

  /** ... and not before: with fewer steps some distance is left. */
  lemma {:induction false} RemainingBeforeSettled(d: nat, m: nat, n: nat)
    requires m >= 1 && n < StepsToSettle(d, m)
    ensures Remaining(d, m, n) > 0
    decreases n
  {
    if n > 0 {
      RemainingBeforeSettled(d - Min(d, m), m, n - 1);
    }
  }

  /** The for loop of step: nextChar applied `steps` times. */
  method Turn(cur: char, steps: int) returns (r: char)
    ensures r == Advance(cur, Max(0, steps))
  {
    r := cur;
    for i := 0 to Max(0, steps)
      invariant r == Advance(cur, i)
    {
      r := NextChar(r);
    }
  }

  /** How many columns of a row take part `localTick` ticks after the row started: one more every `ticksPerChar` ticks. */
  function ActiveCols(localTick: nat, ticksPerChar: int, cols: nat): (n: nat)
    requires ticksPerChar >= 1
    ensures n <= cols
    ensures cols >= 1 ==> n >= 1
  {
    Min(cols, localTick / ticksPerChar + 1)
  }

  /** The wave reaches the last column once (cols - 1) * ticksPerChar ticks have passed. */
  lemma ActiveColsReachAll(localTick: nat, ticksPerChar: int, cols: nat)
    requires ticksPerChar >= 1 && localTick >= (cols - 1) * ticksPerChar
    ensures ActiveCols(localTick, ticksPerChar, cols) == cols
  {
    var q := localTick / ticksPerChar;
    var rem := localTick % ticksPerChar;
    assert localTick == q * ticksPerChar + rem;
  }

  /** Row r takes part from tick r * rowStaggerTicks on. */
  predicate Started(r: int, tick: int, rowStaggerTicks: int) {
    tick >= r * rowStaggerTicks
  }

  /** While the first stagger has not passed, only row 0 has started. */
  lemma OnlyFirstRowStarted(r: int, tick: int, rowStaggerTicks: int)
    requires rowStaggerTicks > 0 && tick < rowStaggerTicks && r >= 1
    ensures !Started(r, tick, rowStaggerTicks)
  {
    assert r * rowStaggerTicks >= rowStaggerTicks;
  }

  /** Whether cell (r, c) moves at this tick. */
  predicate IsActive(r: int, c: int, tick: int, rowStaggerTicks: int, ticksPerChar: int, cols: nat)
    requires ticksPerChar >= 1
  {
    Started(r, tick, rowStaggerTicks) && c < ActiveCols(tick - r * rowStaggerTicks, ticksPerChar, cols)
  }

  /** The content of cell (r, c) for the wrapped lines: the character, or a space past the line's end or the last line. */
  function CellText(lines: seq<string>, r: int, c: int): (ch: char)
    requires r >= 0 && c >= 0
    ensures r < |lines| && c < |lines[r]| ==> ch == lines[r][c]
    ensures r >= |lines| || c >= |lines[r]| ==> ch == ' '
  {
    if r < |lines| && c < |lines[r]| then lines[r][c] else ' '
  }

  // ----- hit-testing -----

  /** A point of the component; only its height matters for hit-testing. */
  datatype Point = Point(x: int, y: int)

  /** Height y lies on the cells of row r, not in the gap below them. */
  predicate InRowBand(y: int, r: int, cellH: int, gapY: int) {
    r * (cellH + gapY) <= y < r * (cellH + gapY) + cellH
  }

  /** rowAtPoint on the height of the point: the row y / (cellH + gapY), or -1 off the rows or in a gap. */
  function RowAt(y: int, rows: int, cellH: int, gapY: int): (r: int)
    requires cellH >= 1 && gapY >= 0
    ensures r == -1 || 0 <= r < rows
    ensures r >= 0 ==> InRowBand(y, r, cellH, gapY)
  {
    var rowH := cellH + gapY;
    if y < 0 then -1
    else
      var r := y / rowH;
      if r < 0 || r >= rows then -1
      else if y % rowH >= cellH then -1
      else r
  }

  /** Every height on the cells of a row hits exactly that row. */
  lemma RowAtFinds(y: int, k: int, rows: int, cellH: int, gapY: int)
    requires cellH >= 1 && gapY >= 0 && 0 <= k < rows && InRowBand(y, k, cellH, gapY)
    ensures RowAt(y, rows, cellH, gapY) == k
  {
    var rowH := cellH + gapY;
    assert y >= 0 by {
      assert k * rowH >= 0;
    }
    DivModUnique(y, rowH, k, y - k * rowH);
  }

  /** rowAtPoint gives -1 exactly when the height is on no row's cells. */
  lemma RowAtMisses(y: int, rows: int, cellH: int, gapY: int)
    requires cellH >= 1 && gapY >= 0
    ensures RowAt(y, rows, cellH, gapY) == -1 <==> forall k | 0 <= k < rows :: !InRowBand(y, k, cellH, gapY)
  {
    if RowAt(y, rows, cellH, gapY) == -1 {
      forall k | 0 <= k < rows
        ensures !InRowBand(y, k, cellH, gapY)
      {
        if InRowBand(y, k, cellH, gapY) {
          RowAtFinds(y, k, rows, cellH, gapY);
        }
      }
    }
  }

  // ----- the display -----

  /** Every cell of the grid shows a character of the wheel. */
  predicate AllOnWheel(a: array2<char>)
    reads a
  {
    forall r, c | 0 <= r < a.Length0 && 0 <= c < a.Length1 :: IsWheelChar(a[r, c])
  }

  /** fill: every cell of the grid set to ch. */
  method Fill(a: array2<char>, ch: char)
    modifies a
    ensures forall r, c | 0 <= r < a.Length0 && 0 <= c < a.Length1 :: a[r, c] == ch
  {
    var r := 0;
    while r < a.Length0
      invariant 0 <= r <= a.Length0
      invariant forall i, j | 0 <= i < r && 0 <= j < a.Length1 :: a[i, j] == ch
    {
      var c := 0;
      while c < a.Length1
        invariant 0 <= c <= a.Length1
        invariant forall i, j | 0 <= i < r && 0 <= j < a.Length1 :: a[i, j] == ch
        invariant forall j | 0 <= j < c :: a[r, j] == ch
      {
        a[r, c] := ch;
        c := c + 1;
      }
      r := r + 1;
    }
  }

  /** The target loop of showTextRattle: cell (r, c) becomes the normalized character of line r at column c. */
  method WriteLines(a: array2<char>, lines: seq<string>)
    modifies a
    ensures forall r, c | 0 <= r < a.Length0 && 0 <= c < a.Length1 :: a[r, c] == Normalize(CellText(lines, r, c))
  {
    var r := 0;
    while r < a.Length0
      invariant 0 <= r <= a.Length0
      invariant forall i, j | 0 <= i < r && 0 <= j < a.Length1 :: a[i, j] == Normalize(CellText(lines, i, j))
    {
      var line := if r < |lines| then lines[r] else "";
      var c := 0;
      while c < a.Length1
        invariant 0 <= c <= a.Length1
        invariant forall i, j | 0 <= i < r && 0 <= j < a.Length1 :: a[i, j] == Normalize(CellText(lines, i, j))
        invariant forall j | 0 <= j < c :: a[r, j] == Normalize(CellText(lines, r, j))
      {
        var ch := if c < |line| then line[c] else ' ';
        a[r, c] := Normalize(ch);
        c := c + 1;
      }
      r := r + 1;
    }
  }

  /** The character cell (r, c) of a rows-by-cols board shows for a text: the wrapped text, normalized, blank past a line's end. */
  function BoardChar(text: string, rows: nat, cols: nat, r: int, c: int): (ch: char)
    requires r >= 0 && c >= 0
    ensures IsWheelChar(ch)
  {
    NormalizeIsWheelChar(CellText(WrapLines(text, rows, cols), r, c));
    Normalize(CellText(WrapLines(text, rows, cols), r, c))
  }

  /** The grid holds the text as the board shows it, one character per cell. */
  predicate Shows(a: array2<char>, text: string)
    reads a
  {
    forall r, c {:trigger BoardChar(text, a.Length0, a.Length1, r, c)} | 0 <= r < a.Length0 && 0 <= c < a.Length1 ::
      a[r, c] == BoardChar(text, a.Length0, a.Length1, r, c)
  }

  /** The target grid of showTextRattle: the wrapped text, normalized, one character per cell. */
  method ShowLines(a: array2<char>, text: string)
    modifies a
    ensures Shows(a, text)
    ensures AllOnWheel(a)
  {
    var lines := WrapToLines(text, a.Length0, a.Length1);
    WriteLines(a, lines);
    NormalizedOnWheel(a, lines);
  }

  /** A grid written from normalized characters shows only wheel characters. */
  lemma NormalizedOnWheel(a: array2<char>, lines: seq<string>)
    requires forall r, c | 0 <= r < a.Length0 && 0 <= c < a.Length1 :: a[r, c] == Normalize(CellText(lines, r, c))
    ensures AllOnWheel(a)
  {
    forall r, c | 0 <= r < a.Length0 && 0 <= c < a.Length1
      ensures IsWheelChar(a[r, c])
    {
      NormalizeIsWheelChar(CellText(lines, r, c));
    }
  }

  /** One cell of step: a cell off its target turns min(distance, maxAdvances) times. */
  method StepOneCell(cur: char, tgt: char, maxAdvances: nat) returns (r: char)
    ensures r == StepCell(cur, tgt, maxAdvances)
  {
    r := cur;
    if cur != tgt {
      var dist := DistanceForward(cur, tgt);
      var steps := Min(dist, maxAdvances);
      r := Turn(cur, steps);
    }
  }

  /** The check at the end of a row in step: whether any cell of row r still differs from its target. */
  method RowDiffers(current: array2<char>, target: array2<char>, r: int) returns (differs: bool)
    requires 0 <= r < current.Length0 && current.Length0 == target.Length0 && current.Length1 == target.Length1
    ensures differs <==> exists j | 0 <= j < current.Length1 :: current[r, j] != target[r, j]
  {
    var c := 0;
    while c < current.Length1
      invariant 0 <= c <= current.Length1
      invariant forall j | 0 <= j < c :: current[r, j] == target[r, j]
    {
      if current[r, c] != target[r, c] {
        return true;
      }
      c := c + 1;
    }
    return false;
  }

  /** The body of the column loop of step: cell (r, c) turns towards its target when it is off it. */
  method StepCellAt(current: array2<char>, target: array2<char>, r: int, c: int, maxAdvances: nat) returns (moved: bool)
    requires current != target && current.Length0 == target.Length0 && current.Length1 == target.Length1
    requires 0 <= r < current.Length0 && 0 <= c < current.Length1
    modifies current
    ensures current[r, c] == StepCell(old(current[r, c]), target[r, c], maxAdvances)
    ensures forall i, j | 0 <= i < current.Length0 && 0 <= j < current.Length1 && (i != r || j != c) :: current[i, j] == old(current[i, j])
    ensures moved <==> old(current[r, c]) != target[r, c]
  {
    var cur := current[r, c];
    var tgt := target[r, c];
    moved := false;
    if cur != tgt {
      cur := StepOneCell(cur, tgt, maxAdvances);
      current[r, c] := cur;
      moved := true;
    }
  }

  /**
   * The column loop of step for row r: the first activeCols cells move
   * towards their targets; the result tells whether any of them was off its
   * target.
   */
  method StepCells(current: array2<char>, target: array2<char>, r: int, activeCols: int, maxAdvances: nat) returns (changed: bool)
    requires current != target && current.Length0 == target.Length0 && current.Length1 == target.Length1
    requires 0 <= r < current.Length0 && 0 <= activeCols <= current.Length1
    modifies current
    ensures forall j | 0 <= j < current.Length1 :: current[r, j] == if j < activeCols then StepCell(old(current[r, j]), target[r, j], maxAdvances) else old(current[r, j])
    ensures forall i, j | 0 <= i < current.Length0 && i != r && 0 <= j < current.Length1 :: current[i, j] == old(current[i, j])
    ensures changed <==> exists j | 0 <= j < activeCols :: old(current[r, j]) != target[r, j]
  {
    changed := false;
    var c := 0;
    while c < activeCols
      invariant 0 <= c <= activeCols
      invariant forall j | 0 <= j < c :: current[r, j] == StepCell(old(current[r, j]), target[r, j], maxAdvances)
      invariant forall j | c <= j < current.Length1 :: current[r, j] == old(current[r, j])
      invariant forall i, j | 0 <= i < current.Length0 && i != r && 0 <= j < current.Length1 :: current[i, j] == old(current[i, j])
      invariant changed <==> exists j | 0 <= j < c :: old(current[r, j]) != target[r, j]
    {
      var moved := StepCellAt(current, target, r, c, maxAdvances);
      changed := changed || moved;
      c := c + 1;
    }
  }

  /**
   * One started row of step: the first activeCols cells move towards their
   * targets; the row reports a change exactly when any of its cells differed
   * from its target before the step.
   */
  method StepRow(current: array2<char>, target: array2<char>, r: int, activeCols: int, maxAdvances: nat) returns (changed: bool)
    requires current != target && current.Length0 == target.Length0 && current.Length1 == target.Length1
    requires 0 <= r < current.Length0 && 0 <= activeCols <= current.Length1
    modifies current
    ensures forall j | 0 <= j < current.Length1 :: current[r, j] == if j < activeCols then StepCell(old(current[r, j]), target[r, j], maxAdvances) else old(current[r, j])
    ensures forall i, j | 0 <= i < current.Length0 && i != r && 0 <= j < current.Length1 :: current[i, j] == old(current[i, j])
    ensures changed <==> exists j | 0 <= j < current.Length1 :: old(current[r, j]) != target[r, j]
  {
    changed := StepCells(current, target, r, activeCols, maxAdvances);
    var rest := RowDiffers(current, target, r);
    if !changed {
      assert forall j | 0 <= j < activeCols :: current[r, j] == old(current[r, j]);
    }
    changed := changed || rest;
  }

  /**
   * The row loop of step at tick `tick`: every started row steps its active
   * cells; the result tells whether any started row had a cell off its
   * target before the step.
   */
  method StepRows(current: array2<char>, target: array2<char>, tick: int, rowStaggerTicks: int, ticksPerChar: int, maxAdvances: nat)
      returns (anyChange: bool)
    requires current != target && current.Length0 == target.Length0 && current.Length1 == target.Length1
    requires ticksPerChar >= 1
    modifies current
    ensures forall i, j | 0 <= i < current.Length0 && 0 <= j < current.Length1 ::
      current[i, j] == if IsActive(i, j, tick, rowStaggerTicks, ticksPerChar, current.Length1)
                       then StepCell(old(current[i, j]), target[i, j], maxAdvances)
                       else old(current[i, j])
    ensures anyChange <==> exists i, j | 0 <= i < current.Length0 && 0 <= j < current.Length1 ::
      Started(i, tick, rowStaggerTicks) && old(current[i, j]) != target[i, j]
  {
    anyChange := false;
    var r := 0;
    while r < current.Length0
      invariant 0 <= r <= current.Length0
      invariant forall i, j | 0 <= i < r && 0 <= j < current.Length1 ::
        current[i, j] == if IsActive(i, j, tick, rowStaggerTicks, ticksPerChar, current.Length1)
                         then StepCell(old(current[i, j]), target[i, j], maxAdvances)
                         else old(current[i, j])
      invariant forall i, j | r <= i < current.Length0 && 0 <= j < current.Length1 :: current[i, j] == old(current[i, j])
      invariant anyChange <==> exists i, j | 0 <= i < r && 0 <= j < current.Length1 ::
        Started(i, tick, rowStaggerTicks) && old(current[i, j]) != target[i, j]
    {
      var changed := StepRowAt(current, target, r, tick, rowStaggerTicks, ticksPerChar, maxAdvances);
      anyChange := anyChange || changed;
      r := r + 1;
    }
  }

  /** The body of the row loop of step: row r steps its active cells once it has started. */
  method StepRowAt(current: array2<char>, target: array2<char>, r: int, tick: int, rowStaggerTicks: int, ticksPerChar: int, maxAdvances: nat)
      returns (changed: bool)
    requires current != target && current.Length0 == target.Length0 && current.Length1 == target.Length1
    requires 0 <= r < current.Length0 && ticksPerChar >= 1
    modifies current
    ensures forall j | 0 <= j < current.Length1 ::
      current[r, j] == if IsActive(r, j, tick, rowStaggerTicks, ticksPerChar, current.Length1)
                       then StepCell(old(current[r, j]), target[r, j], maxAdvances)
                       else old(current[r, j])
    ensures forall i, j | 0 <= i < current.Length0 && i != r && 0 <= j < current.Length1 :: current[i, j] == old(current[i, j])
    ensures changed <==> Started(r, tick, rowStaggerTicks) && exists j | 0 <= j < current.Length1 :: old(current[r, j]) != target[r, j]
  {
    changed := false;
    var rowStart := r * rowStaggerTicks;
    if tick >= rowStart {
      var localTick := tick - rowStart;
      var activeCols := ActiveCols(localTick, ticksPerChar, current.Length1);
      changed := StepRow(current, target, r, activeCols, maxAdvances);
    }
  }

  /**
   * SplitFlapDisplay: what the wheels show (current) and what they turn to
   * (target), the timer's tick counter, the layout and timing settings and
   * the highlighted row.
   */
  class SplitFlapDisplay {
    const rows: int
    const cols: int
    const current: array2<char>
    const target: array2<char>
    /** Whether the animation timer exists (timer != null). */
    var running: bool
    var tick: int
    var cellW: int
    var cellH: int
    const gapX: int
    const gapY: int
    var ticksPerChar: int
    var rowStaggerTicks: int
    var maxAdvancesPerTick: int
    var selectedRow: int

    /** The dimensions and the bounds every setter keeps. */
    predicate Shape()
      reads this
    {
      0 <= rows && 0 <= cols && current != target
      && current.Length0 == rows && current.Length1 == cols
      && target.Length0 == rows && target.Length1 == cols
      && cellW >= 8 && cellH >= 10 && gapX == 3 && gapY == 6
      && ticksPerChar >= 1 && rowStaggerTicks >= 0 && maxAdvancesPerTick >= 1
      && -1 <= selectedRow < rows && tick >= 0
    }

    /** The class invariant: the shape, and every wheel on a character of the charset. */
    predicate Valid()
      reads this, current, target
    {
      Shape() && AllOnWheel(current) && AllOnWheel(target)
    }

    /** new SplitFlapDisplay(rows, cols): both grids blank, no timer, the default layout and timing. */
    constructor(rows: int, cols: int)
      requires rows >= 0 && cols >= 0
      ensures Valid() && fresh(current) && fresh(target)
      ensures this.rows == rows && this.cols == cols
      ensures forall r, c | 0 <= r < rows && 0 <= c < cols :: current[r, c] == ' ' && target[r, c] == ' '
      ensures !running && tick == 0 && selectedRow == -1
      ensures cellW == 22 && cellH == 30 && ticksPerChar == 9 && rowStaggerTicks == 6 && maxAdvancesPerTick == 6
    {
      this.rows := rows;
      this.cols := cols;
      var cur := new char[rows, cols];
      var tgt := new char[rows, cols];
      Fill(cur, ' ');
      Fill(tgt, ' ');
      current := cur;
      target := tgt;
      running := false;
      tick := 0;
      cellW := 22;
      cellH := 30;
      gapX := 3;
      gapY := 6;
      ticksPerChar := 9;
      rowStaggerTicks := 6;
      maxAdvancesPerTick := 6;
      selectedRow := -1;
      assert IsWheelChar(' ');
    }

    /** setSelectedRow: the row when it exists, otherwise -1; nothing else changes. */
    method SetSelectedRow(row: int)
      requires Valid()
      modifies this
      ensures Valid()
      ensures selectedRow == (if row < 0 || row >= rows then -1 else row)
      ensures running == old(running) && tick == old(tick) && cellW == old(cellW) && cellH == old(cellH)
      ensures ticksPerChar == old(ticksPerChar) && rowStaggerTicks == old(rowStaggerTicks) && maxAdvancesPerTick == old(maxAdvancesPerTick)
    {
      var next := if row < 0 || row >= rows then -1 else row;
      if next != selectedRow {
        selectedRow := next;
      }
    }

    /** rowAtPoint: -1 for no point, otherwise the row under the point's height, or -1. */
    function RowAtPoint(p: Option<Point>): (r: int)
      requires Valid()
      reads this, current, target
      ensures r == -1 || 0 <= r < rows
      ensures r >= 0 ==> p.Some? && InRowBand(p.value.y, r, cellH, gapY)
      ensures p.Some? ==> r == RowAt(p.value.y, rows, cellH, gapY)
    {
      if p.None? then -1 else RowAt(p.value.y, rows, cellH, gapY)
    }

    /** setCellSize: at least 8 by 10 pixels. */
    method SetCellSize(w: int, h: int)
      requires Valid()
      modifies this
      ensures Valid()
      ensures cellW == Max(8, w) && cellH == Max(10, h)
      ensures running == old(running) && tick == old(tick) && selectedRow == old(selectedRow)
      ensures ticksPerChar == old(ticksPerChar) && rowStaggerTicks == old(rowStaggerTicks) && maxAdvancesPerTick == old(maxAdvancesPerTick)
    {
      cellW := Max(8, w);
      cellH := Max(10, h);
    }

    /** setTiming: at least one tick per character, no negative stagger. */
    method SetTiming(ticksPerChar: int, rowStaggerTicks: int)
      requires Valid()
      modifies this
      ensures Valid()
      ensures this.ticksPerChar == Max(1, ticksPerChar) && this.rowStaggerTicks == Max(0, rowStaggerTicks)
      ensures running == old(running) && tick == old(tick) && selectedRow == old(selectedRow)
      ensures cellW == old(cellW) && cellH == old(cellH) && maxAdvancesPerTick == old(maxAdvancesPerTick)
    {
      this.ticksPerChar := Max(1, ticksPerChar);
      this.rowStaggerTicks := Max(0, rowStaggerTicks);
    }

    /** setMaxAdvancesPerTick: at least one turn per step. */
    method SetMaxAdvancesPerTick(maxAdvancesPerTick: int)
      requires Valid()
      modifies this
      ensures Valid()
      ensures this.maxAdvancesPerTick == Max(1, maxAdvancesPerTick)
      ensures running == old(running) && tick == old(tick) && selectedRow == old(selectedRow)
      ensures cellW == old(cellW) && cellH == old(cellH) && ticksPerChar == old(ticksPerChar) && rowStaggerTicks == old(rowStaggerTicks)
    {
      this.maxAdvancesPerTick := Max(1, maxAdvancesPerTick);
    }

    /** startTimer: the tick counter back to 0 and a (new) timer running. */
    method StartTimer()
      requires Valid()
      modifies this
      ensures Valid()
      ensures tick == 0 && running
      ensures selectedRow == old(selectedRow) && cellW == old(cellW) && cellH == old(cellH)
      ensures ticksPerChar == old(ticksPerChar) && rowStaggerTicks == old(rowStaggerTicks) && maxAdvancesPerTick == old(maxAdvancesPerTick)
    {
      tick := 0;
      running := true;
    }

    /**
     * showTextRattle: the text (an absent text counts as empty) wrapped into
     * rows lines of cols characters sets the target grid, normalized; what
     * the wheels show is left to the animation.
     */
    method ShowTextRattle(text: Option<string>)
      requires Valid()
      modifies this, target
      ensures Valid()
      ensures Shows(target, if text.Some? then text.value else "")
      ensures unchanged(current)
      ensures tick == 0 && running
      ensures selectedRow == old(selectedRow) && cellW == old(cellW) && cellH == old(cellH)
      ensures ticksPerChar == old(ticksPerChar) && rowStaggerTicks == old(rowStaggerTicks) && maxAdvancesPerTick == old(maxAdvancesPerTick)
    {
      ShowLines(target, if text.Some? then text.value else "");
      StartTimer();
    }

    /** clearRattle: every target cell blank, and the animation restarted. */
    method ClearRattle()
      requires Valid()
      modifies this, target
      ensures Valid()
      ensures forall r, c | 0 <= r < rows && 0 <= c < cols :: target[r, c] == ' '
      ensures unchanged(current)
      ensures tick == 0 && running
      ensures selectedRow == old(selectedRow) && cellW == old(cellW) && cellH == old(cellH)
      ensures ticksPerChar == old(ticksPerChar) && rowStaggerTicks == old(rowStaggerTicks) && maxAdvancesPerTick == old(maxAdvancesPerTick)
    {
      Fill(target, ' ');
      assert IsWheelChar(' ');
      StartTimer();
    }

    /**
     * step, one timer tick: every active cell (IsActive) takes one StepCell,
     * the others keep what they show; the tick advances; and the timer stops
     * exactly when no started row had a cell off its target before the step.
     */
    method Step()
      requires Valid()
      modifies this, current
      ensures Valid()
      ensures forall r, c | 0 <= r < rows && 0 <= c < cols ::
        current[r, c] == if IsActive(r, c, old(tick), rowStaggerTicks, ticksPerChar, cols)
                         then StepCell(old(current[r, c]), target[r, c], maxAdvancesPerTick)
                         else old(current[r, c])
      ensures unchanged(target)
      ensures tick == old(tick) + 1
      ensures running == (old(running) && exists r, c | 0 <= r < rows && 0 <= c < cols ::
                Started(r, old(tick), rowStaggerTicks) && old(current[r, c]) != target[r, c])
      ensures selectedRow == old(selectedRow) && cellW == old(cellW) && cellH == old(cellH)
      ensures ticksPerChar == old(ticksPerChar) && rowStaggerTicks == old(rowStaggerTicks) && maxAdvancesPerTick == old(maxAdvancesPerTick)
    {
      var anyChange := StepRows(current, target, tick, rowStaggerTicks, ticksPerChar, maxAdvancesPerTick);
      forall i, j | 0 <= i < rows && 0 <= j < cols
        ensures IsWheelChar(current[i, j])
      {
        StepCellOnWheel(old(current[i, j]), target[i, j], maxAdvancesPerTick);
      }
      tick := tick + 1;
      if !anyChange && running {
        running := false;
      }
    }
  }
}
