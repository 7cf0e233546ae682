/**
 * The line canonicalisation of backend/utils/normalizeLine.js: a line is
 * lower-cased, trimmed, and every run of whitespace inside it becomes one
 * space; a list of lines is canonicalised line by line and the lines that
 * end up empty are dropped.
 */
module LineNormalizer {
  import opened Text
  import opened JsValues

  // ---------------------------------------------------------------------
  // The canonical form
  // ---------------------------------------------------------------------

  /** No upper-case ASCII letter. */
  predicate NoUpper(s: string) {
    forall i :: 0 <= i < |s| ==> !IsUpperAscii(s[i])
  }

  /** Every whitespace character is a plain space, and no two are adjacent. */
  predicate IsCollapsed(s: string) {
    && (forall i :: 0 <= i < |s| && IsWhitespace(s[i]) ==> s[i] == ' ')
    && (forall i :: 0 <= i < |s| - 1 ==> !(IsWhitespace(s[i]) && IsWhitespace(s[i + 1])))
  }

  /**
   * A canonical line: no upper-case ASCII letter, no whitespace at either
   * end, every whitespace character a plain space, and no two whitespace
   * characters side by side.
   */
  predicate IsNormalized(t: string) {
    && NoUpper(t)
    && IsCollapsed(t)
    && (t != [] ==> !IsWhitespace(t[0]) && !IsWhitespace(t[|t| - 1]))
  }

  /** The words of a line: its maximal runs of non-whitespace characters. */
  function Words(s: string): seq<string> {
    NonEmpty(Split(s, IsWhitespace))
  }

  // ---------------------------------------------------------------------
  // The three steps of `normalizeLine`
  // ---------------------------------------------------------------------

  /** Drops the leading whitespace (the first half of `trim`). */
  function TrimStart(s: string): (r: string)
    ensures r == [] || !IsWhitespace(r[0])
    decreases |s|
  {
    if s != [] && IsWhitespace(s[0]) then TrimStart(s[1..]) else s
  }

  /** Drops the trailing whitespace (the second half of `trim`). */
  function TrimEnd(s: string): (r: string)
    ensures |r| <= |s|
    ensures r == [] || !IsWhitespace(r[|r| - 1])
    ensures r != [] ==> r[0] == s[0]
    decreases |s|
  {
    if s != [] && IsWhitespace(s[|s| - 1]) then TrimEnd(s[..|s| - 1]) else s
  }

  /** `TrimStart` keeps a suffix of the line and drops only whitespace. */
  lemma {:induction false} TrimStartDropsWhitespace(s: string)
    ensures |TrimStart(s)| <= |s| && TrimStart(s) == s[|s| - |TrimStart(s)|..]
    ensures forall i :: 0 <= i < |s| - |TrimStart(s)| ==> IsWhitespace(s[i])
    decreases |s|
  {
    if s != [] && IsWhitespace(s[0]) {
      var r := TrimStart(s[1..]);
      TrimStartDropsWhitespace(s[1..]);
      assert s[1..][|s| - 1 - |r|..] == s[|s| - |r|..];
      assert forall i :: 1 <= i < |s| - |r| ==> s[i] == s[1..][i - 1];
    }
  }

  /** `TrimEnd` keeps a prefix of the line and drops only whitespace. */
  lemma {:induction false} TrimEndDropsWhitespace(s: string)
    ensures TrimEnd(s) == s[..|TrimEnd(s)|]
    ensures forall i :: |TrimEnd(s)| <= i < |s| ==> IsWhitespace(s[i])
    decreases |s|
  {
    if s != [] && IsWhitespace(s[|s| - 1]) {
      var r := TrimEnd(s[..|s| - 1]);
      TrimEndDropsWhitespace(s[..|s| - 1]);
      assert s[..|s| - 1][..|r|] == s[..|r|];
      assert forall i :: |r| <= i < |s| - 1 ==> s[i] == s[..|s| - 1][i];
    }
  }

  /** `replace(/\s+/g, " ")`: every maximal whitespace run becomes one space. */
  function Collapse(s: string): (r: string)
    ensures r == [] <==> s == []
    ensures r != [] ==> (IsWhitespace(r[0]) <==> IsWhitespace(s[0]))
    ensures r != [] ==> (IsWhitespace(r[|r| - 1]) <==> IsWhitespace(s[|s| - 1]))
  {
    CollapseFromLast(s, false);
    CollapseFrom(s, false)
  }

  /**
   * The left-to-right scan of the replacement: the first character of a
   * whitespace run becomes a space and the rest of the run is skipped.
   * `inRun` says that the previous character was whitespace.
   */
  function CollapseFrom(s: string, inRun: bool): (r: string)
    ensures |r| <= |s|
    ensures !inRun ==> (r == [] <==> s == [])
    decreases |s|
  {
    if s == [] then []
    else if !IsWhitespace(s[0]) then [s[0]] + CollapseFrom(s[1..], false)
    else if inRun then CollapseFrom(s[1..], true)
    else [' '] + CollapseFrom(s[1..], true)
  }

  /**
   * The scan ends in whitespace exactly when the string does; when it emits
   * nothing from a non-empty string, that string is all whitespace and so
   * ends in it.
   */
  lemma {:induction false} CollapseFromLast(s: string, inRun: bool)
    ensures CollapseFrom(s, inRun) != [] ==>
              (IsWhitespace(CollapseFrom(s, inRun)[|CollapseFrom(s, inRun)| - 1]) <==> IsWhitespace(s[|s| - 1]))
    ensures CollapseFrom(s, inRun) == [] && s != [] ==> IsWhitespace(s[|s| - 1])
    decreases |s|
  {
    if s != [] {
      var t := s[1..];
      CollapseFromLast(t, IsWhitespace(s[0]));
      if t != [] {
        assert s[|s| - 1] == t[|t| - 1];
      }
    }
  }

  /** Prefixing a character keeps a string collapsed unless it makes a second space. */
  lemma ConsCollapsed(c: char, x: string)
    requires IsCollapsed(x)
    requires IsWhitespace(c) ==> c == ' ' && (x == [] || !IsWhitespace(x[0]))
    ensures IsCollapsed([c] + x)
  {
    var r := [c] + x;
    assert forall i :: 1 <= i < |r| ==> r[i] == x[i - 1];
  }

  /**
   * Collapsing leaves every whitespace run a single plain space; inside a
   * run, the scan emits nothing more before the next non-whitespace
   * character.
   */
  lemma {:induction false} CollapseIsCollapsed(s: string, inRun: bool)
    ensures IsCollapsed(CollapseFrom(s, inRun))
    ensures inRun && CollapseFrom(s, inRun) != [] ==> !IsWhitespace(CollapseFrom(s, inRun)[0])
    decreases |s|
  {
    if s != [] {
      var t := s[1..];
      if !IsWhitespace(s[0]) {
        CollapseIsCollapsed(t, false);
        ConsCollapsed(s[0], CollapseFrom(t, false));
      } else {
        CollapseIsCollapsed(t, true);
        if !inRun {
          ConsCollapsed(' ', CollapseFrom(t, true));
        }
      }
    }
  }

  /** A slice of a string without upper-case letters has none either. */
  lemma SliceNoUpper(s: string, lo: nat, hi: nat)
    requires lo <= hi <= |s|
    ensures NoUpper(s) ==> NoUpper(s[lo..hi])
  {
    assert forall i :: 0 <= i < hi - lo ==> s[lo..hi][i] == s[lo + i];
  }

  /** Prefixing a character that is not upper case keeps a string without upper case. */
  lemma ConsNoUpper(c: char, x: string)
    requires !IsUpperAscii(c) && NoUpper(x)
    ensures NoUpper([c] + x)
  {
    var r := [c] + x;
    assert forall i :: 1 <= i < |r| ==> r[i] == x[i - 1];
  }

  /** Collapsing adds no upper-case letter. */
  lemma {:induction false} CollapseKeepsNoUpper(s: string, inRun: bool)
    requires NoUpper(s)
    ensures NoUpper(CollapseFrom(s, inRun))
    decreases |s|
  {
    if s != [] {
      var t := s[1..];
      SliceNoUpper(s, 1, |s|);
      assert s[1..|s|] == t;
      if !IsWhitespace(s[0]) {
        CollapseKeepsNoUpper(t, false);
        ConsNoUpper(s[0], CollapseFrom(t, false));
      } else {
        CollapseKeepsNoUpper(t, true);
        ConsNoUpper(' ', CollapseFrom(t, true));
      }
    }
  }

  /** `trim`: drops the whitespace at both ends. */
  function Trim(s: string): (r: string)
    ensures r == [] || (!IsWhitespace(r[0]) && !IsWhitespace(r[|r| - 1]))
  {
    TrimEnd(TrimStart(s))
  }

  /** Trimming adds no upper-case letter. */
  lemma TrimKeepsNoUpper(s: string)
    requires NoUpper(s)
    ensures NoUpper(Trim(s))
  {
    var front := TrimStart(s);
    TrimStartDropsWhitespace(s);
    TrimEndDropsWhitespace(front);
    SliceNoUpper(s, |s| - |front|, |s|);
    SliceNoUpper(front, 0, |Trim(s)|);
  }

  /** `line.toLowerCase().trim().replace(/\s+/g, " ")` on a string. */
  function NormalizeString(s: string): (r: string)
    ensures IsNormalized(r)
    ensures IsNormalized(s) ==> r == s
  {
    var t := Trim(Lower(s));
    assert NoUpper(Lower(s));
    TrimKeepsNoUpper(Lower(s));
    CollapseIsCollapsed(t, false);
    CollapseKeepsNoUpper(t, false);
    var r := Collapse(t);
    assert r != [] ==> !IsWhitespace(r[0]) && !IsWhitespace(r[|r| - 1]);
    assert IsNormalized(s) ==> Collapse(Trim(Lower(s))) == s by {
      if IsNormalized(s) {
        CanonicalIsFixed(s);
      }
    }
    r
  }

  // ---------------------------------------------------------------------
  // The exported functions
  // ---------------------------------------------------------------------

  /** `normalizeLine`: a value that is not a string normalises to "". */
  function NormalizeLine(line: JsValue): (r: string)
    ensures IsNormalized(r)
    ensures !line.JsString? ==> r == []
    ensures line.JsString? && IsNormalized(line.s) ==> r == line.s
  {
    match line
    case JsString(s) => NormalizeString(s)
    case _ => []
  }

  /** `normalizeLines`: a value that is not an array normalises to []. */
  function NormalizeLines(lines: JsValue): (r: seq<string>)
    ensures forall k :: 0 <= k < |r| ==> r[k] != [] && IsNormalized(r[k])
    ensures !lines.JsArray? ==> r == []
    ensures lines.JsArray? ==> |r| <= |lines.items|
  {
    match lines
    case JsArray(items) =>
      NonEmptyKeeps(NormalizeEach(items), IsNormalized);
      NonEmpty(NormalizeEach(items))
    case _ => []
  }

  /** `lines.map(normalizeLine)`. */
  function NormalizeEach(items: seq<JsValue>): (r: seq<string>)
    ensures |r| == |items|
    ensures forall k :: 0 <= k < |r| ==> r[k] == NormalizeLine(items[k])
    decreases |items|
  {
    if items == [] then [] else [NormalizeLine(items[0])] + NormalizeEach(items[1..])
  }

  /** The lines of `text`: the pieces of `text.split("\n")`. */
  function Lines(text: string): seq<string> {
    Split(text, IsNewline)
  }

  /** `parseUserCode`: a value that is not a string parses to []. */
  function ParseUserCode(text: JsValue): (r: seq<string>)
    ensures forall k :: 0 <= k < |r| ==> r[k] != [] && IsNormalized(r[k])
    ensures !text.JsString? ==> r == []
    ensures text.JsString? ==> |r| <= |Lines(text.s)|
  {
    match text
    case JsString(s) => NormalizeLines(StringArray(Lines(s)))
    case _ => []
  }

  // ---------------------------------------------------------------------
  // Idempotence
  // ---------------------------------------------------------------------

  /** The tail of a collapsed string is collapsed, and does not start with a space after one. */
  lemma CollapsedTail(s: string)
    requires s != [] && IsCollapsed(s)
    ensures IsCollapsed(s[1..])
    ensures IsWhitespace(s[0]) ==> s[0] == ' ' && (s[1..] == [] || !IsWhitespace(s[1..][0]))
  {
    var t := s[1..];
    assert forall i :: 0 <= i < |t| ==> t[i] == s[i + 1];
  }

  /**
   * A collapsed string is left as it is, provided it does not start with
   * whitespace in the middle of a run.
   */
  lemma {:induction false} CollapseOfCollapsed(s: string, inRun: bool)
    requires IsCollapsed(s)
    requires inRun ==> s == [] || !IsWhitespace(s[0])
    ensures CollapseFrom(s, inRun) == s
    decreases |s|
  {
    if s != [] {
      var t := s[1..];
      CollapsedTail(s);
      if IsWhitespace(s[0]) {
        CollapseOfCollapsed(t, true);
      } else {
        CollapseOfCollapsed(t, false);
      }
      assert s == [s[0]] + t;
    }
  }

  /** Each step of the normalisation leaves a canonical line unchanged. */
  lemma CanonicalIsFixed(t: string)
    requires IsNormalized(t)
    ensures Collapse(Trim(Lower(t))) == t
  {
    LowerOfLowerCase(t);
    assert TrimStart(t) == t;
    assert TrimEnd(t) == t;
    CollapseOfCollapsed(t, false);
  }

  /** `normalizeLine(normalizeLine(x)) == normalizeLine(x)`. */
  lemma NormalizeLineIdempotent(line: JsValue)
    ensures NormalizeLine(JsString(NormalizeLine(line))) == NormalizeLine(line)
  {
  }

  // ---------------------------------------------------------------------
  // Normalisation keeps the words
  // ---------------------------------------------------------------------

  /** `x` and `y` have the same words and the same first piece. */
  predicate SameWords(x: string, y: string) {
    Words(x) == Words(y) && Split(x, IsWhitespace)[0] == Split(y, IsWhitespace)[0]
  }

  /** A leading whitespace character adds no word and empties the first piece. */
  lemma ConsWhitespace(c: char, x: string)
    requires IsWhitespace(c)
    ensures Words([c] + x) == Words(x)
    ensures Split([c] + x, IsWhitespace)[0] == []
  {
    assert ([c] + x)[1..] == x;
    var p := Split(x, IsWhitespace);
    assert Split([c] + x, IsWhitespace) == [[]] + p;
    assert ([[]] + p)[1..] == p;
  }

  /** Prefixing the same character keeps `SameWords`. */
  lemma ConsSame(c: char, x: string, y: string)
    requires SameWords(x, y)
    ensures SameWords([c] + x, [c] + y)
  {
    if IsWhitespace(c) {
      ConsWhitespace(c, x);
      ConsWhitespace(c, y);
    } else {
      assert ([c] + x)[1..] == x;
      assert ([c] + y)[1..] == y;
      var p, q := Split(x, IsWhitespace), Split(y, IsWhitespace);
      assert Split([c] + x, IsWhitespace) == [[c] + p[0]] + p[1..];
      assert Split([c] + y, IsWhitespace) == [[c] + q[0]] + q[1..];
      assert p == [p[0]] + p[1..];
      assert q == [q[0]] + q[1..];
      var head := if p[0] == [] then [] else [p[0]];
      assert NonEmpty(p) == head + NonEmpty(p[1..]);
      assert NonEmpty(q) == head + NonEmpty(q[1..]);
      assert NonEmpty(p[1..]) == NonEmpty(p)[|head|..];
      assert ([[c] + p[0]] + p[1..])[1..] == p[1..];
      assert ([[c] + q[0]] + q[1..])[1..] == q[1..];
    }
  }

  lemma {:induction false} TrimStartWords(s: string)
    ensures Words(TrimStart(s)) == Words(s)
    decreases |s|
  {
    if s != [] && IsWhitespace(s[0]) {
      TrimStartWords(s[1..]);
      assert s == [s[0]] + s[1..];
      ConsWhitespace(s[0], s[1..]);
    }
  }

  /** Appending one whitespace character changes neither words nor first piece. */
  lemma {:induction false} AppendWhitespace(a: string, w: char)
    requires IsWhitespace(w)
    ensures SameWords(a + [w], a)
    decreases |a|
  {
    if a == [] {
      assert [w] == [w] + [];
      ConsWhitespace(w, []);
    } else {
      AppendWhitespace(a[1..], w);
      ConsSame(a[0], a[1..] + [w], a[1..]);
      assert [a[0]] + (a[1..] + [w]) == a + [w];
      assert [a[0]] + a[1..] == a;
    }
  }

  lemma {:induction false} TrimEndWords(s: string)
    ensures SameWords(TrimEnd(s), s)
    decreases |s|
  {
    if s != [] && IsWhitespace(s[|s| - 1]) {
      var a := s[..|s| - 1];
      TrimEndWords(a);
      AppendWhitespace(a, s[|s| - 1]);
      assert a + [s[|s| - 1]] == s;
    }
  }

  /**
   * The scan keeps the words; from outside a run it also keeps the first
   * piece.
   */
  lemma {:induction false} CollapseWords(s: string, inRun: bool)
    ensures Words(CollapseFrom(s, inRun)) == Words(s)
    ensures !inRun ==> SameWords(CollapseFrom(s, inRun), s)
    decreases |s|
  {
    if s != [] {
      var t := s[1..];
      assert s == [s[0]] + t;
      if !IsWhitespace(s[0]) {
        CollapseWords(t, false);
        ConsSame(s[0], CollapseFrom(t, false), t);
      } else {
        CollapseWords(t, true);
        ConsWhitespace(s[0], t);
        if !inRun {
          ConsWhitespace(' ', CollapseFrom(t, true));
        }
      }
    }
  }

  /** Normalisation keeps the words of the lower-cased line, in order. */
  lemma NormalizeWords(s: string)
    ensures Words(NormalizeString(s)) == Words(Lower(s))
  {
    var l := Lower(s);
    TrimStartWords(l);
    TrimEndWords(TrimStart(l));
    CollapseWords(Trim(l), false);
  }

  // ---------------------------------------------------------------------
  // A canonical line is determined by its words
  // ---------------------------------------------------------------------

  /** A canonical line is its words joined by single spaces. */
  lemma CanonicalIsJoinedWords(t: string)
    requires IsNormalized(t)
    ensures Join(Words(t), ' ') == t
  {
    if t != [] {
      SplitPiecesNonEmpty(t, IsWhitespace);
      var p := Split(t, IsWhitespace);
      NonEmptyKeepsAll(p);
      SplitJoin(t, IsWhitespace, ' ');
    }
  }

  /** Two canonical lines with the same words are the same line. */
  lemma CanonicalUnique(x: string, y: string)
    requires IsNormalized(x) && IsNormalized(y)
    requires Words(x) == Words(y)
    ensures x == y
  {
    CanonicalIsJoinedWords(x);
    CanonicalIsJoinedWords(y);
  }

  /**
   * Two lines normalise to the same string exactly when, after lower-casing,
   * they have the same words: normalisation ignores ASCII case and the amount
   * and kind of whitespace, and nothing else.
   */
  lemma NormalizeEqualIff(a: string, b: string)
    ensures NormalizeString(a) == NormalizeString(b) <==> Words(Lower(a)) == Words(Lower(b))
  {
    NormalizeWords(a);
    NormalizeWords(b);
    if Words(Lower(a)) == Words(Lower(b)) {
      CanonicalUnique(NormalizeString(a), NormalizeString(b));
    }
  }

  // ---------------------------------------------------------------------
  // normalizeLines and parseUserCode
  // ---------------------------------------------------------------------

  /**
   * `normalizeLines` keeps, in order, the normalised form of exactly the
   * items that do not normalise to "": its `k`-th line is the normalised
   * `idx[k]`-th item, the positions `idx` increase strictly, and every item
   * with a non-empty normal form is among them.
   */
  lemma NormalizeLinesSubsequence(items: seq<JsValue>) returns (idx: seq<nat>)
    ensures |idx| == |NormalizeLines(JsArray(items))|
    ensures forall k :: 0 <= k < |idx| ==>
              idx[k] < |items| && NormalizeLines(JsArray(items))[k] == NormalizeLine(items[idx[k]])
    ensures forall k, l :: 0 <= k < l < |idx| ==> idx[k] < idx[l]
    ensures forall i :: 0 <= i < |items| && NormalizeLine(items[i]) != [] ==> i in idx
  {
    var each := NormalizeEach(items);
    NonEmptyIsSubsequence(each, 0);
    assert each[0..] == each;
    idx := KeptPositions(each, 0);
  }

  /** The lines of a text are newline-free and rejoin to the text. */
  lemma LinesRejoin(text: string)
    ensures Join(Lines(text), '\n') == text
    ensures forall k, j :: 0 <= k < |Lines(text)| && 0 <= j < |Lines(text)[k]| ==> Lines(text)[k][j] != '\n'
  {
    SplitJoin(text, IsNewline, '\n');
  }

  /**
   * `parseUserCode` keeps, in order, the normalised form of exactly the
   * lines of the text that are not blank.
   */
  lemma ParseUserCodeSubsequence(text: string) returns (idx: seq<nat>)
    ensures |idx| == |ParseUserCode(JsString(text))|
    ensures forall k :: 0 <= k < |idx| ==>
              idx[k] < |Lines(text)| && ParseUserCode(JsString(text))[k] == NormalizeString(Lines(text)[idx[k]])
    ensures forall k, l :: 0 <= k < l < |idx| ==> idx[k] < idx[l]
    ensures forall i :: 0 <= i < |Lines(text)| && NormalizeString(Lines(text)[i]) != [] ==> i in idx
  {
    var lines := Lines(text);
    var items := StringArray(lines).items;
    idx := NormalizeLinesSubsequence(items);
    forall i | 0 <= i < |lines|
      ensures NormalizeLine(items[i]) == NormalizeString(lines[i])
    {
      assert items[i] == JsString(lines[i]);
    }
  }
}
