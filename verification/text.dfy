/**
 * Character classes and string primitives of the JavaScript runtime that the
 * grading code relies on: the `\s` / `trim` whitespace set, ASCII
 * lower-casing, `String.prototype.includes`, `String.prototype.split` and
 * the `filter(line => line.length > 0)` idiom.
 */
module Text {

  /**
   * ECMAScript WhiteSpace and LineTerminator code points: the set matched by
   * the regular-expression class `\s` and removed by `String.prototype.trim`.
   */
  predicate IsWhitespace(c: char) {
    c == ' ' || ('\t' <= c <= '\r') || ('\U{A0}' <= c && IsWideWhitespace(c))
  }

  /**
   * The whitespace code points above ASCII: no-break space, the Unicode space
   * separators, the line and paragraph separators, and the byte order mark.
   */
  predicate IsWideWhitespace(c: char) {
    || c == '\U{A0}'
    || c == '\U{1680}'
    || ('\U{2000}' <= c <= '\U{200A}')
    || c == '\U{2028}'
    || c == '\U{2029}'
    || c == '\U{202F}'
    || c == '\U{205F}'
    || c == '\U{3000}'
    || c == '\U{FEFF}'
  }

  predicate IsNewline(c: char) {
    c == '\n'
  }

  predicate IsUpperAscii(c: char) {
    'A' <= c <= 'Z'
  }

  /** `toLowerCase` restricted to the ASCII letters. */
  function LowerChar(c: char): (d: char)
    ensures !IsUpperAscii(d)
    ensures IsWhitespace(d) <==> IsWhitespace(c)
    ensures !IsUpperAscii(c) ==> d == c
    ensures IsUpperAscii(c) ==> d as int == c as int + 32
  {
    if IsUpperAscii(c) then (c as int + 32) as char else c
  }

  function Lower(s: string): (r: string)
    ensures |r| == |s|
    ensures forall i :: 0 <= i < |s| ==> r[i] == LowerChar(s[i])
  {
    seq(|s|, i requires 0 <= i < |s| => LowerChar(s[i]))
  }

  /** Lower-casing changes nothing in a string without upper-case letters. */
  lemma LowerOfLowerCase(s: string)
    requires forall i :: 0 <= i < |s| ==> !IsUpperAscii(s[i])
    ensures Lower(s) == s
  {
  }

  // ---------------------------------------------------------------------
  // Substring search
  // ---------------------------------------------------------------------

  /** `t` occurs in `s` starting at index `i`. */
  ghost predicate OccursAt(s: string, t: string, i: int) {
    0 <= i && i + |t| <= |s| && s[i..i + |t|] == t
  }

  /** `s.includes(t)`, computed by sliding a window over `s`. */
  function Contains(s: string, t: string): (r: bool)
    ensures r ==> |t| <= |s|
    ensures t == [] ==> r
    decreases |s|
  {
    if |s| < |t| then false
    else if s[..|t|] == t then true
    else Contains(s[1..], t)
  }

  /** The sliding search finds `t` exactly when `t` occurs somewhere in `s`. */
  lemma {:induction false} ContainsIffOccurs(s: string, t: string)
    ensures Contains(s, t) <==> exists i :: OccursAt(s, t, i)
    decreases |s|
  {
    if |s| < |t| {
      forall i | OccursAt(s, t, i)
        ensures false
      {
      }
    } else if s[..|t|] == t {
      assert OccursAt(s, t, 0);
    } else {
      ContainsIffOccurs(s[1..], t);
      if Contains(s[1..], t) {
        var j :| OccursAt(s[1..], t, j);
        assert s[1..][j..j + |t|] == s[j + 1..j + 1 + |t|];
        assert OccursAt(s, t, j + 1);
      } else {
        forall i | OccursAt(s, t, i)
          ensures false
        {
          assert i != 0;
          assert s[1..][i - 1..i - 1 + |t|] == s[i..i + |t|];
          assert OccursAt(s[1..], t, i - 1);
        }
      }
    }
  }

  // ---------------------------------------------------------------------
  // Splitting and joining
  // ---------------------------------------------------------------------

  /**
   * The pieces of `s` between the characters that satisfy `isSep`, like
   * `s.split(sep)`: a separator at either end yields an empty piece, and the
   * empty string yields one empty piece.
   */
  function Split(s: string, isSep: char -> bool): (pieces: seq<string>)
    ensures |pieces| >= 1
    ensures forall k, j :: 0 <= k < |pieces| && 0 <= j < |pieces[k]| ==> !isSep(pieces[k][j])
    ensures |pieces| <= |s| + 1
    decreases |s|
  {
    if s == [] then [[]]
    else
      var rest := Split(s[1..], isSep);
      if isSep(s[0]) then [[]] + rest
      else [[s[0]] + rest[0]] + rest[1..]
  }

  /** `pieces.join(sep)`. */
  function Join(pieces: seq<string>, sep: char): string
    decreases |pieces|
  {
    if pieces == [] then []
    else if |pieces| == 1 then pieces[0]
    else pieces[0] + [sep] + Join(pieces[1..], sep)
  }

  lemma JoinConsFirst(c: char, p: string, ps: seq<string>, sep: char)
    ensures Join([[c] + p] + ps, sep) == [c] + Join([p] + ps, sep)
  {
    if ps != [] {
      assert ([[c] + p] + ps)[1..] == ps;
      assert ([p] + ps)[1..] == ps;
    }
  }

  /**
   * Joining the pieces with the separator gives back the original string,
   * provided every separator character in it is `sep`.
   */
  lemma {:induction false} SplitJoin(s: string, isSep: char -> bool, sep: char)
    requires forall i :: 0 <= i < |s| && isSep(s[i]) ==> s[i] == sep
    ensures Join(Split(s, isSep), sep) == s
    decreases |s|
  {
    if s != [] {
      var rest := Split(s[1..], isSep);
      SplitJoin(s[1..], isSep, sep);
      if isSep(s[0]) {
        assert ([[]] + rest)[1..] == rest;
        assert Join([[]] + rest, sep) == [sep] + Join(rest, sep);
      } else {
        assert rest == [rest[0]] + rest[1..];
        JoinConsFirst(s[0], rest[0], rest[1..], sep);
      }
    }
  }

  /**
   * When no two separators are adjacent and `s` does not end in one, only the
   * first piece can be empty, and it is non-empty too when `s` does not start
   * with a separator.
   */
  lemma {:induction false} SplitPiecesNonEmpty(s: string, isSep: char -> bool)
    requires forall i :: 0 <= i < |s| - 1 ==> !(isSep(s[i]) && isSep(s[i + 1]))
    requires s != [] ==> !isSep(s[|s| - 1])
    ensures forall k :: 1 <= k < |Split(s, isSep)| ==> Split(s, isSep)[k] != []
    ensures s != [] && !isSep(s[0]) ==> Split(s, isSep)[0] != []
    decreases |s|
  {
    if s != [] {
      var r := s[1..];
      SplitPiecesNonEmpty(r, isSep);
      if isSep(s[0]) {
        assert r != [] && !isSep(r[0]);
      }
    }
  }

  // ---------------------------------------------------------------------
  // Dropping empty strings
  // ---------------------------------------------------------------------

  /** `strs.filter(x => x.length > 0)`. */
  function NonEmpty(strs: seq<string>): (r: seq<string>)
    ensures |r| <= |strs|
    ensures forall k :: 0 <= k < |r| ==> r[k] != []
    decreases |strs|
  {
    if strs == [] then []
    else (if strs[0] == [] then [] else [strs[0]]) + NonEmpty(strs[1..])
  }

  /** Whatever holds of every string of `strs` holds of every kept string. */
  lemma {:induction false} NonEmptyKeeps(strs: seq<string>, p: string -> bool)
    requires forall k :: 0 <= k < |strs| ==> p(strs[k])
    ensures forall k :: 0 <= k < |NonEmpty(strs)| ==> p(NonEmpty(strs)[k])
    decreases |strs|
  {
    if strs != [] {
      NonEmptyKeeps(strs[1..], p);
    }
  }

  /** Filtering a sequence without empty strings keeps it whole. */
  lemma {:induction false} NonEmptyKeepsAll(strs: seq<string>)
    requires forall k :: 0 <= k < |strs| ==> strs[k] != []
    ensures NonEmpty(strs) == strs
    decreases |strs|
  {
    if strs != [] {
      NonEmptyKeepsAll(strs[1..]);
    }
  }

  /**
   * The positions `j >= from` of `strs` that hold a non-empty string, in
   * increasing order.
   */
  ghost function KeptPositions(strs: seq<string>, from: nat): (idx: seq<nat>)
    requires from <= |strs|
    ensures forall k :: 0 <= k < |idx| ==> from <= idx[k] < |strs| && strs[idx[k]] != []
    ensures forall k, l :: 0 <= k < l < |idx| ==> idx[k] < idx[l]
    ensures forall j :: from <= j < |strs| && strs[j] != [] ==> j in idx
    decreases |strs| - from
  {
    if from == |strs| then []
    else (if strs[from] == [] then [] else [from]) + KeptPositions(strs, from + 1)
  }

  /**
   * The kept strings are, in order, exactly the non-empty ones: the `k`-th
   * kept string is the string at the `k`-th non-empty position.
   */
  lemma {:induction false} NonEmptyIsSubsequence(strs: seq<string>, from: nat)
    requires from <= |strs|
    ensures |NonEmpty(strs[from..])| == |KeptPositions(strs, from)|
    ensures forall k :: 0 <= k < |KeptPositions(strs, from)| ==>
              NonEmpty(strs[from..])[k] == strs[KeptPositions(strs, from)[k]]
    decreases |strs| - from
  {
    if from < |strs| {
      var tail := strs[from..];
      NonEmptyIsSubsequence(strs, from + 1);
      assert tail[1..] == strs[from + 1..];
      var rest, restIdx := NonEmpty(strs[from + 1..]), KeptPositions(strs, from + 1);
      if strs[from] == [] {
        assert NonEmpty(tail) == rest;
        assert KeptPositions(strs, from) == restIdx;
      } else {
        assert NonEmpty(tail) == [strs[from]] + rest;
        assert KeptPositions(strs, from) == [from] + restIdx;
      }
    }
  }
}
