/**
 * The handful of Python string operations the BOM tools rely on, over ASCII:
 * `isspace`, `isdigit`, `isalpha`, `lower`, `in`, `startswith`, `strip`,
 * `split(sep)`, `re.split('\s+', ...)`, `sep.join(...)`, `int(...)` and `<`.
 */
module Text {
  import opened Wrappers
  import Sorting

  /** Python's whitespace on the ASCII range: \t \n \v \f \r, the separators \x1c-\x1f, and space. */
  predicate IsWhitespace(ch: char) {
    9 <= ch as int <= 13 || 28 <= ch as int <= 32
  }

  predicate IsDigit(ch: char) {
    '0' <= ch <= '9'
  }

  predicate IsAlpha(ch: char) {
    'a' <= ch <= 'z' || 'A' <= ch <= 'Z'
  }

  /** `s.isspace()`: false on the empty string. */
  predicate IsSpace(s: string) {
    |s| > 0 && forall i :: 0 <= i < |s| ==> IsWhitespace(s[i])
  }

  function LowerChar(ch: char): char {
    if 'A' <= ch <= 'Z' then (ch as int + 32) as char else ch
  }

  function Lower(s: string): (r: string)
    ensures |r| == |s|
  {
    seq(|s|, i requires 0 <= i < |s| => LowerChar(s[i]))
  }

  /** Lower-casing a slice is slicing the lower-cased string. */
  lemma LowerSlice(s: string, i: nat, j: nat)
    requires i <= j <= |s|
    ensures Lower(s)[i..j] == Lower(s[i..j])
  {
  }

  lemma LowerAppend(a: string, b: string)
    ensures Lower(a + b) == Lower(a) + Lower(b)
  {
  }

  /** Every string contains itself. */
  lemma ContainsSelf(s: string)
    ensures Contains(s, s)
  {
    assert OccursAt(s, s, 0);
  }

  /** `needle in hay` for two strings. */
  predicate Contains(hay: string, needle: string) {
    exists i :: 0 <= i <= |hay| - |needle| && OccursAt(hay, needle, i)
  }

  predicate OccursAt(hay: string, needle: string, i: int) {
    0 <= i <= |hay| - |needle| && hay[i..i + |needle|] == needle
  }

  predicate StartsWith(s: string, prefix: string) {
    |prefix| <= |s| && s[..|prefix|] == prefix
  }

  /** The index of the first character at or after `i` that is not whitespace, or `|s|`. */
  function SkipSpace(s: string, i: nat): (j: nat)
    requires i <= |s|
    ensures i <= j <= |s|
    ensures j < |s| ==> !IsWhitespace(s[j])
    ensures forall k :: i <= k < j ==> IsWhitespace(s[k])
    decreases |s| - i
  {
    if i < |s| && IsWhitespace(s[i]) then SkipSpace(s, i + 1) else i
  }

  /** The index just past the last character before `j` that is not whitespace, or 0. */
  function SkipSpaceBack(s: string, j: nat): (i: nat)
    requires j <= |s|
    ensures i <= j
    ensures 0 < i ==> !IsWhitespace(s[i - 1])
    ensures forall k :: i <= k < j ==> IsWhitespace(s[k])
    decreases j
  {
    if 0 < j && IsWhitespace(s[j - 1]) then SkipSpaceBack(s, j - 1) else j
  }

  /** `s.lstrip()` */
  function TrimStart(s: string): string {
    s[SkipSpace(s, 0)..]
  }

  /** `s.rstrip()` */
  function TrimEnd(s: string): string {
    s[..SkipSpaceBack(s, |s|)]
  }

  /** `s.strip()`: neither end of the result is whitespace. */
  function Strip(s: string): (r: string)
    ensures |r| <= |s|
    ensures |r| > 0 ==> !IsWhitespace(r[0]) && !IsWhitespace(r[|r| - 1])
  {
    TrimEnd(TrimStart(s))
  }

  /**
   * What `strip` removes is whitespace: the result is the stretch of `s` at
   * `SkipSpace(s, 0)`, and everything before and after it is whitespace.
   */
  lemma StripRemovesSpace(s: string)
    ensures var i := SkipSpace(s, 0);
            && i + |Strip(s)| <= |s| && s[i..i + |Strip(s)|] == Strip(s)
            && (forall k :: 0 <= k < i ==> IsWhitespace(s[k]))
            && (forall k :: i + |Strip(s)| <= k < |s| ==> IsWhitespace(s[k]))
  {
    var i := SkipSpace(s, 0);
    var t := s[i..];
    var j := SkipSpaceBack(t, |t|);
    forall k | i + j <= k < |s| ensures IsWhitespace(s[k]) {
      assert s[k] == t[k - i];
    }
  }

  /** A string that neither starts nor ends with whitespace is its own `strip`. */
  lemma {:induction false} StripFixed(s: string)
    requires |s| > 0 ==> !IsWhitespace(s[0]) && !IsWhitespace(s[|s| - 1])
    ensures Strip(s) == s
  {
    assert SkipSpace(s, 0) == 0;
    assert s[0..] == s;
    assert SkipSpaceBack(s, |s|) == |s|;
  }

  /** `strip` is idempotent. */
  lemma StripStrip(s: string)
    ensures Strip(Strip(s)) == Strip(s)
  {
    StripFixed(Strip(s));
  }

  /** `s.split(sep)` for a one-character separator: always at least one piece. */
  function SplitOn(s: string, sep: char): (r: seq<string>)
    ensures |r| >= 1
    decreases |s|
  {
    if s == [] then [""]
    else if s[0] == sep then [""] + SplitOn(s[1..], sep)
    else
      var rest := SplitOn(s[1..], sep);
      [[s[0]] + rest[0]] + rest[1..]
  }

  /** `sep.join(parts)` */
  function Join(parts: seq<string>, sep: char): string
    decreases |parts|
  {
    if parts == [] then ""
    else if |parts| == 1 then parts[0]
    else parts[0] + [sep] + Join(parts[1..], sep)
  }

  lemma JoinExtendFirst(c: char, parts: seq<string>, sep: char)
    requires |parts| >= 1
    ensures Join([[c] + parts[0]] + parts[1..], sep) == [c] + Join(parts, sep)
  {
    var r := [[c] + parts[0]] + parts[1..];
    if |parts| > 1 {
      assert r[1..] == parts[1..];
      var tail := [sep] + Join(parts[1..], sep);
      assert Join(r, sep) == ([c] + parts[0]) + tail;
      assert Join(parts, sep) == parts[0] + tail;
      Sorting.AppendAssoc([c], parts[0], tail);
    }
  }

  lemma JoinEmptyFirst(parts: seq<string>, sep: char)
    requires |parts| >= 1
    ensures Join([""] + parts, sep) == [sep] + Join(parts, sep)
  {
    assert ([""] + parts)[1..] == parts;
    assert "" + [sep] == [sep];
  }

  /** Splitting and joining again on the same separator gives back the string. */
  lemma {:induction false} JoinSplitOn(s: string, sep: char)
    ensures Join(SplitOn(s, sep), sep) == s
    decreases |s|
  {
    if s != [] {
      var rest := SplitOn(s[1..], sep);
      JoinSplitOn(s[1..], sep);
      if s[0] == sep {
        assert SplitOn(s, sep) == [""] + rest;
        JoinEmptyFirst(rest, sep);
        assert Join(SplitOn(s, sep), sep) == [s[0]] + s[1..];
      } else {
        assert SplitOn(s, sep) == [[s[0]] + rest[0]] + rest[1..];
        JoinExtendFirst(s[0], rest, sep);
        assert Join(SplitOn(s, sep), sep) == [s[0]] + s[1..];
      }
      assert [s[0]] + s[1..] == s;
    }
  }

  lemma {:induction false} SplitOnSeparated(a: string, b: string, sep: char)
    requires forall i :: 0 <= i < |a| ==> a[i] != sep
    ensures SplitOn(a + [sep] + b, sep) == [a] + SplitOn(b, sep)
    decreases |a|
  {
    var s := a + [sep] + b;
    if a == [] {
      assert s[1..] == b;
    } else {
      assert s[0] == a[0] && s[1..] == a[1..] + [sep] + b;
      SplitOnSeparated(a[1..], b, sep);
      assert [a[0]] + a[1..] == a;
    }
  }

  lemma {:induction false} SplitOnPlain(a: string, sep: char)
    requires forall i :: 0 <= i < |a| ==> a[i] != sep
    ensures SplitOn(a, sep) == [a]
    decreases |a|
  {
    if a != [] {
      SplitOnPlain(a[1..], sep);
      assert [a[0]] + a[1..] == a;
    }
  }

  /**
   * Joining pieces that do not contain the separator and splitting again
   * gives back the same pieces (empty pieces included).
   */
  lemma {:induction false} SplitOnJoin(parts: seq<string>, sep: char)
    requires |parts| >= 1
    requires forall k, i :: 0 <= k < |parts| && 0 <= i < |parts[k]| ==> parts[k][i] != sep
    ensures SplitOn(Join(parts, sep), sep) == parts
    decreases |parts|
  {
    if |parts| == 1 {
      SplitOnPlain(parts[0], sep);
    } else {
      SplitOnJoin(parts[1..], sep);
      SplitOnSeparated(parts[0], Join(parts[1..], sep), sep);
      assert [parts[0]] + parts[1..] == parts;
    }
  }

  /** No character of `t` is whitespace. */
  predicate NoSpace(t: string) {
    forall j :: 0 <= j < |t| ==> !IsWhitespace(t[j])
  }

  /**
   * `re.split('\s+', s)`: the pieces between maximal runs of whitespace. No
   * piece holds whitespace, and only leading or trailing whitespace yields an
   * empty (first or last) piece, so a string that neither starts nor ends
   * with whitespace splits into non-empty pieces only.
   */
  function SplitWhitespace(s: string): (r: seq<string>)
    ensures |r| >= 1
    ensures forall k :: 0 <= k < |r| ==> NoSpace(r[k])
    ensures |s| > 0 && !IsWhitespace(s[0]) && !IsWhitespace(s[|s| - 1]) ==> forall k :: 0 <= k < |r| ==> |r[k]| > 0
  {
    PiecesNoSpace(s, 0);
    PiecesInnerNonEmpty(s, 0);
    if |s| > 0 && !IsWhitespace(s[|s| - 1]) then
      PiecesLastNonEmpty(s, 0);
      PiecesFrom(s, 0)
    else
      PiecesFrom(s, 0)
  }

  /** The pieces of `s[i..]`. */
  function PiecesFrom(s: string, i: nat): (r: seq<string>)
    requires i <= |s|
    ensures |r| >= 1
    decreases |s| - i
  {
    if i == |s| then [""]
    else if IsWhitespace(s[i]) then [""] + PiecesFrom(s, SkipSpace(s, i))
    else
      var rest := PiecesFrom(s, i + 1);
      [[s[i]] + rest[0]] + rest[1..]
  }

  /** No piece holds whitespace. */
  lemma {:induction false} PiecesNoSpace(s: string, i: nat)
    requires i <= |s|
    ensures forall k :: 0 <= k < |PiecesFrom(s, i)| ==> NoSpace(PiecesFrom(s, i)[k])
    decreases |s| - i
  {
    if i < |s| {
      if IsWhitespace(s[i]) {
        var rest := PiecesFrom(s, SkipSpace(s, i));
        PiecesNoSpace(s, SkipSpace(s, i));
        assert forall k :: 0 < k < |rest| + 1 ==> ([""] + rest)[k] == rest[k - 1];
      } else {
        var rest := PiecesFrom(s, i + 1);
        PiecesNoSpace(s, i + 1);
        var head := [s[i]] + rest[0];
        assert NoSpace(head) by {
          assert forall j :: 0 < j < |head| ==> head[j] == rest[0][j - 1];
        }
        var r := [head] + rest[1..];
        assert forall k :: 0 < k < |r| ==> r[k] == rest[k];
      }
    }
  }

  /** A piece between two others is never empty, nor is the first when `s[i..]` starts with a character that is not whitespace. */
  lemma {:induction false} PiecesInnerNonEmpty(s: string, i: nat)
    requires i <= |s|
    ensures forall k :: 0 < k < |PiecesFrom(s, i)| - 1 ==> |PiecesFrom(s, i)[k]| > 0
    ensures i < |s| && !IsWhitespace(s[i]) ==> |PiecesFrom(s, i)[0]| > 0
    decreases |s| - i
  {
    if i < |s| {
      if IsWhitespace(s[i]) {
        var j := SkipSpace(s, i);
        var rest := PiecesFrom(s, j);
        PiecesInnerNonEmpty(s, j);
        var r := [""] + rest;
        assert PiecesFrom(s, i) == r;
        assert forall k :: 0 < k < |r| ==> r[k] == rest[k - 1];
      } else {
        var rest := PiecesFrom(s, i + 1);
        PiecesInnerNonEmpty(s, i + 1);
        var r := [[s[i]] + rest[0]] + rest[1..];
        assert PiecesFrom(s, i) == r;
        assert forall k :: 0 < k < |r| ==> r[k] == rest[k];
      }
    }
  }

  /** The last piece is empty only when `s` ends with whitespace (or `s[i..]` is empty). */
  lemma {:induction false} PiecesLastNonEmpty(s: string, i: nat)
    requires i < |s| && !IsWhitespace(s[|s| - 1])
    ensures |PiecesFrom(s, i)[|PiecesFrom(s, i)| - 1]| > 0
    decreases |s| - i
  {
    if IsWhitespace(s[i]) {
      var j := SkipSpace(s, i);
      assert j < |s|;
      var rest := PiecesFrom(s, j);
      PiecesLastNonEmpty(s, j);
      var r := [""] + rest;
      assert PiecesFrom(s, i) == r;
      assert r[|r| - 1] == rest[|rest| - 1];
    } else if i + 1 < |s| {
      var rest := PiecesFrom(s, i + 1);
      PiecesLastNonEmpty(s, i + 1);
      var r := [[s[i]] + rest[0]] + rest[1..];
      assert PiecesFrom(s, i) == r;
      if |rest| > 1 {
        assert r[|r| - 1] == rest[|rest| - 1];
      }
    }
  }

  /** The characters of `s[i..]` that are not whitespace, in order. */
  function NonSpaceFrom(s: string, i: nat): string
    requires i <= |s|
    decreases |s| - i
  {
    if i == |s| then ""
    else if IsWhitespace(s[i]) then NonSpaceFrom(s, i + 1)
    else [s[i]] + NonSpaceFrom(s, i + 1)
  }

  /** The pieces one after the other. */
  function Concat(pieces: seq<string>): string
    decreases |pieces|
  {
    if pieces == [] then "" else pieces[0] + Concat(pieces[1..])
  }

  lemma ConcatCons(a: string, pieces: seq<string>)
    ensures Concat([a] + pieces) == a + Concat(pieces)
  {
    assert ([a] + pieces)[1..] == pieces;
  }

  lemma ConcatExtendFirst(c: char, pieces: seq<string>)
    requires |pieces| >= 1
    ensures Concat([[c] + pieces[0]] + pieces[1..]) == [c] + Concat(pieces)
  {
    var head, tail := pieces[0], pieces[1..];
    ConcatCons([c] + head, tail);
    ConcatCons(head, tail);
    assert [head] + tail == pieces;
    Sorting.AppendAssoc([c], head, Concat(tail));
  }

  lemma {:induction false} NonSpaceSkips(s: string, i: nat)
    requires i <= |s|
    ensures NonSpaceFrom(s, SkipSpace(s, i)) == NonSpaceFrom(s, i)
    decreases |s| - i
  {
    if i < |s| && IsWhitespace(s[i]) {
      NonSpaceSkips(s, i + 1);
    }
  }

  /** The pieces hold every character that is not whitespace, in order, and nothing else. */
  lemma {:induction false} PiecesKeepText(s: string, i: nat)
    requires i <= |s|
    ensures Concat(PiecesFrom(s, i)) == NonSpaceFrom(s, i)
    decreases |s| - i
  {
    if i < |s| {
      if IsWhitespace(s[i]) {
        var rest := PiecesFrom(s, SkipSpace(s, i));
        PiecesKeepText(s, SkipSpace(s, i));
        NonSpaceSkips(s, i);
        ConcatCons("", rest);
      } else {
        var rest := PiecesFrom(s, i + 1);
        PiecesKeepText(s, i + 1);
        ConcatExtendFirst(s[i], rest);
      }
    }
  }

  /** `re.split('\s+', s)` loses nothing but whitespace. */
  lemma SplitWhitespaceKeepsText(s: string)
    ensures Concat(SplitWhitespace(s)) == NonSpaceFrom(s, 0)
  {
    PiecesKeepText(s, 0);
  }

  /** `s.split(":")[-1]`: what follows the last colon, or all of `s`. */
  function AfterLastColon(s: string): string {
    var pieces := SplitOn(s, ':');
    pieces[|pieces| - 1]
  }

  predicate IsDecimal(s: string) {
    |s| > 0 && forall i :: 0 <= i < |s| ==> IsDigit(s[i])
  }

  function DecimalValue(s: string): nat
    requires forall i :: 0 <= i < |s| ==> IsDigit(s[i])
    decreases |s|
  {
    if s == [] then 0
    else
      assert IsDigit(s[|s| - 1]);
      DecimalValue(s[..|s| - 1]) * 10 + (s[|s| - 1] as int - '0' as int)
  }

  /** `str(n)` for a natural number: its decimal digits, without leading zeros. */
  function DecimalString(n: nat): (r: string)
    ensures IsDecimal(r)
    ensures DecimalValue(r) == n
    ensures r[0] != '0' || r == "0"
    decreases n
  {
    var digit := [('0' as int + n % 10) as char];
    if n < 10 then
      assert digit[..0] == "";
      digit
    else
      var front := DecimalString(n / 10);
      assert front[0] != '0' by {
        if |front| == 1 {
          assert front[..0] == "";
        }
      }
      var r := front + digit;
      assert r[..|r| - 1] == front;
      r
  }

  /**
   * `int(s)` on a string: surrounding whitespace, an optional sign, then
   * decimal digits; anything else is the ValueError, here None.
   */
  function ParseInt(s: string): (r: Option<int>)
    ensures IsDecimal(Strip(s)) ==> r == Some(DecimalValue(Strip(s)))
    ensures |Strip(s)| > 0 && Strip(s)[0] == '+' && IsDecimal(Strip(s)[1..]) ==> r == Some(DecimalValue(Strip(s)[1..]))
    ensures |Strip(s)| > 0 && Strip(s)[0] == '-' && IsDecimal(Strip(s)[1..]) ==> r == Some(-(DecimalValue(Strip(s)[1..]) as int))
    ensures r.Some? ==> IsDecimal(Strip(s)) || (|Strip(s)| > 0 && Strip(s)[0] in "+-" && IsDecimal(Strip(s)[1..]))
  {
    var t := Strip(s);
    if t != [] && (t[0] == '+' || t[0] == '-') && IsDecimal(t[1..]) then
      var magnitude: int := DecimalValue(t[1..]);
      Some(if t[0] == '-' then - magnitude else magnitude)
    else if IsDecimal(t) then Some(DecimalValue(t))
    else None
  }

  /** `int(str(n)) == n`, with or without surrounding whitespace. */
  lemma ParseIntDecimalString(n: nat, pad: string)
    requires forall i :: 0 <= i < |pad| ==> IsWhitespace(pad[i])
    ensures ParseInt(pad + DecimalString(n) + pad) == Some(n)
  {
    var d := DecimalString(n);
    var s := pad + d + pad;
    StripRemovesSpace(s);
    var i := SkipSpace(s, 0);
    var t := Strip(s);
    assert forall k :: 0 <= k < |pad| ==> s[k] == pad[k];
    assert forall k :: |pad| + |d| <= k < |s| ==> s[k] == pad[k - |pad| - |d|];
    assert s[|pad|..|pad| + |d|] == d;
    assert s[|pad|] == d[0] && s[|pad| + |d| - 1] == d[|d| - 1];
    assert i == |pad|;
    assert t[|t| - 1] == s[i + |t| - 1];
    assert |t| == |d|;
    StripFixed(d);
  }

  /** `int("-" + str(n)) == -n`. */
  lemma ParseIntNegative(n: nat)
    ensures ParseInt("-" + DecimalString(n)) == Some(-(n as int))
  {
    var s := "-" + DecimalString(n);
    StripFixed(s);
    assert s[1..] == DecimalString(n);
  }

  function CharLt(a: char, b: char): bool {
    a < b
  }

  /** Python's `<` on two strings: code-point lexicographic order. */
  function StringLt(a: string, b: string): bool {
    Sorting.SeqLt(a, b, CharLt)
  }

  lemma StringLtIsStrictOrder()
    ensures Sorting.Irreflexive(StringLt)
    ensures Sorting.Transitive(StringLt)
  {
    forall a: string ensures !StringLt(a, a) {
      Sorting.SeqLtIrreflexive(a, CharLt);
    }
    forall a: string, b: string, c: string | StringLt(a, b) && StringLt(b, c)
      ensures StringLt(a, c)
    {
      Sorting.SeqLtTransitive(a, b, c, CharLt);
    }
  }
}
