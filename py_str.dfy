/** Python `str` primitives used by the pipeline: `find`, `split`, `strip`,
    `str.isspace` and the decimal rendering of an `int`, on Dafny strings
    (sequences of code points). */
module PyStr {

  /** CPython's `str.isspace()`: the characters `str.strip()` removes when
      given no argument. */
  predicate IsSpace(c: char) {
    ('\t' <= c <= '\r') || ('\U{001C}' <= c <= ' ') || c == '\U{0085}' || c == '\U{00A0}' ||
    c == '\U{1680}' || ('\U{2000}' <= c <= '\U{200A}') || c == '\U{2028}' || c == '\U{2029}' ||
    c == '\U{202F}' || c == '\U{205F}' || c == '\U{3000}'
  }

  /** The characters a `strip` call removes: those of its argument, or
      whitespace when it has none. */
  datatype CharSet = Listed(chars: string) | Whitespace

  predicate InSet(c: char, cs: CharSet) {
    match cs
    case Listed(chars) => c in chars
    case Whitespace => IsSpace(c)
  }

  predicate StartsWith(s: string, prefix: string) {
    |prefix| <= |s| && s[..|prefix|] == prefix
  }

  /** `pat` occurs in `s` at index `i`. */
  predicate OccursAt(s: string, pat: string, i: int) {
    0 <= i && i + |pat| <= |s| && s[i..i + |pat|] == pat
  }

  /** Python's `pat in s`. */
  predicate Contains(s: string, pat: string) {
    exists i :: 0 <= i <= |s| && OccursAt(s, pat, i)
  }

  /** Python's `s.find(pat, start)`: the lowest index at or after `start` where
      `pat` occurs, or -1. */
  function Find(s: string, pat: string, start: nat): (r: int)
    ensures r == -1 || (start <= r && OccursAt(s, pat, r))
    ensures forall j :: start <= j && (r == -1 || j < r) ==> !OccursAt(s, pat, j)
    decreases |s| - start
  {
    if start + |pat| > |s| then -1
    else if s[start..start + |pat|] == pat then start
    else Find(s, pat, start + 1)
  }

  lemma FindNone(s: string, pat: string)
    ensures Find(s, pat, 0) == -1 <==> !Contains(s, pat)
  {
    if Find(s, pat, 0) != -1 {
      assert OccursAt(s, pat, Find(s, pat, 0));
    }
  }

  /** Python's `s.split(sep)` for a one-character separator. */
  function Split(s: string, sep: char): (r: seq<string>)
    ensures |r| >= 1
    ensures forall k :: 0 <= k < |r| ==> sep !in r[k]
    ensures StartsWith(s, r[0]) && (|r[0]| == |s| || s[|r[0]|] == sep)
  {
    if s == [] then [[]]
    else
      var rest := Split(s[1..], sep);
      if s[0] == sep then [[]] + rest
      else
        assert s == [s[0]] + s[1..];
        [[s[0]] + rest[0]] + rest[1..]
  }

  /** Python's `sep.join(pieces)`, the inverse of `Split`. */
  function Join(pieces: seq<string>, sep: char): string
    requires |pieces| >= 1
  {
    if |pieces| == 1 then pieces[0] else pieces[0] + [sep] + Join(pieces[1..], sep)
  }

  /** Splitting loses nothing: joining the pieces back gives the input. */
  lemma {:induction false} SplitJoin(s: string, sep: char)
    ensures Join(Split(s, sep), sep) == s
  {
    if s != [] {
      var rest := Split(s[1..], sep);
      SplitJoin(s[1..], sep);
      if s[0] != sep {
        if |rest| == 1 {
          assert Split(s, sep) == [[s[0]] + rest[0]];
        } else {
          var r := Split(s, sep);
          assert r[1..] == rest[1..];
          assert Join(r, sep) == [s[0]] + rest[0] + [sep] + Join(rest[1..], sep);
        }
      }
    }
  }

  /** Every piece of a split is a contiguous substring of the input. */
  lemma {:induction false} SplitPiecesOccur(s: string, sep: char, k: nat)
    requires k < |Split(s, sep)|
    ensures Contains(s, Split(s, sep)[k])
  {
    var r := Split(s, sep);
    if s == [] {
      assert OccursAt(s, r[k], 0);
    } else {
      var rest := Split(s[1..], sep);
      if s[0] == sep {
        if k == 0 {
          assert OccursAt(s, r[0], 0);
        } else {
          SplitPiecesOccur(s[1..], sep, k - 1);
          var i :| 0 <= i <= |s[1..]| && OccursAt(s[1..], rest[k - 1], i);
          assert r[k] == rest[k - 1];
          assert s[1..][i..i + |r[k]|] == s[i + 1..i + 1 + |r[k]|];
          assert OccursAt(s, r[k], i + 1);
        }
      } else {
        if k == 0 {
          assert OccursAt(s, r[0], 0);
        } else {
          SplitPiecesOccur(s[1..], sep, k);
          var i :| 0 <= i <= |s[1..]| && OccursAt(s[1..], rest[k], i);
          assert r[k] == rest[k];
          assert s[1..][i..i + |r[k]|] == s[i + 1..i + 1 + |r[k]|];
          assert OccursAt(s, r[k], i + 1);
        }
      }
    }
  }

  /** A join ends with its last piece, right after a separator when there
      is more than one piece. */
  lemma {:induction false} JoinLast(pieces: seq<string>, sep: char)
    requires |pieces| >= 1
    ensures var j, last := Join(pieces, sep), pieces[|pieces| - 1];
      |last| <= |j| && j[|j| - |last|..] == last &&
      (|pieces| > 1 ==> |last| < |j| && j[|j| - |last| - 1] == sep)
  {
    if |pieces| > 1 {
      JoinLast(pieces[1..], sep);
      var tail := Join(pieces[1..], sep);
      var j := Join(pieces, sep);
      var last := pieces[|pieces| - 1];
      assert j == pieces[0] + [sep] + tail;
      assert j[|j| - |tail|..] == tail;
    }
  }

  /** The last piece of `s.split(sep)` is a suffix of `s` that either is all
      of `s` or follows a `sep`; as no piece holds `sep`, it is the text after
      the last `sep`, or all of `s` when there is none. */
  lemma SplitLast(s: string, sep: char)
    ensures var last := Split(s, sep)[|Split(s, sep)| - 1];
      |last| <= |s| && last == s[|s| - |last|..] &&
      (|last| == |s| || s[|s| - |last| - 1] == sep)
  {
    SplitJoin(s, sep);
    JoinLast(Split(s, sep), sep);
  }

  /** Where `s.lstrip(chars)` starts: the first index at or after `from`
      whose character is not in `chars`, or `|s|`. */
  function LeftCut(s: string, chars: CharSet, from: nat): (n: nat)
    requires from <= |s|
    ensures from <= n <= |s|
    ensures forall j :: from <= j < n ==> InSet(s[j], chars)
    ensures n == |s| || !InSet(s[n], chars)
    decreases |s| - from
  {
    if from < |s| && InSet(s[from], chars) then LeftCut(s, chars, from + 1) else from
  }

  /** Where `s.rstrip(chars)` ends when it may not cut below `low`: one past
      the last character before `upto` that is not in `chars`, or `low`. */
  function RightCut(s: string, chars: CharSet, low: nat, upto: nat): (n: nat)
    requires low <= upto <= |s|
    ensures low <= n <= upto
    ensures forall j :: n <= j < upto ==> InSet(s[j], chars)
    ensures n == low || !InSet(s[n - 1], chars)
    decreases upto
  {
    if low < upto && InSet(s[upto - 1], chars) then RightCut(s, chars, low, upto - 1) else upto
  }

  /** Python's `s.strip(chars)`; `s.strip()` is `Strip(s, Whitespace)`.
      Like CPython, it finds the first kept index from the left and then the
      last kept index from the right, never crossing the first. */
  function Strip(s: string, chars: CharSet): (r: string)
    ensures var i := LeftCut(s, chars, 0);
      i + |r| <= |s| && r == s[i..i + |r|]
  {
    var i := LeftCut(s, chars, 0);
    s[i..RightCut(s, chars, i, |s|)]
  }

  /** Everything `Strip` cuts off on either side is in `chars`, and neither
      end of the result is. */
  lemma StripCuts(s: string, chars: CharSet)
    ensures var r, i := Strip(s, chars), LeftCut(s, chars, 0);
      (forall j :: 0 <= j < i ==> InSet(s[j], chars)) &&
      (forall j :: i + |r| <= j < |s| ==> InSet(s[j], chars)) &&
      (r == [] || (!InSet(r[0], chars) && !InSet(r[|r| - 1], chars)))
  {
    var i := LeftCut(s, chars, 0);
    var n := RightCut(s, chars, i, |s|);
    var r := s[i..n];
    assert Strip(s, chars) == r;
    if n > i {
      assert r[0] == s[i] && r[|r| - 1] == s[n - 1];
    }
  }

  /** Stripping never cuts into a prefix that neither starts nor ends with a
      stripped character. */
  lemma StripKeepsPrefix(s: string, chars: CharSet, p: string)
    requires StartsWith(s, p) && p != []
    requires !InSet(p[0], chars) && !InSet(p[|p| - 1], chars)
    ensures StartsWith(Strip(s, chars), p)
  {
    assert s[0] == p[0];
    var n := RightCut(s, chars, 0, |s|);
    assert s[|p| - 1] == p[|p| - 1];
    assert n >= |p|;
    assert s[..n][..|p|] == s[..|p|];
  }

  /** `mid` occurs in `s` at `i` and `r` in `mid` at `k`: so `r` occurs in `s`. */
  lemma OccursCompose(s: string, mid: string, r: string, i: int, k: int)
    requires OccursAt(s, mid, i) && OccursAt(mid, r, k)
    ensures OccursAt(s, r, i + k) && Contains(s, r)
  {
    assert forall j :: 0 <= j < |r| ==> r[j] == mid[k + j] == s[i + k + j];
    assert s[i + k..i + k + |r|] == r;
    assert 0 <= i + k <= |s| && OccursAt(s, r, i + k);
  }

  function DigitChar(d: nat): char
    requires d < 10
  {
    "0123456789"[d]
  }

  /** Python's `str(n)` for a non-negative integer. */
  function Decimal(n: nat): (r: string)
    ensures |r| >= 1
    ensures forall k :: 0 <= k < |r| ==> '0' <= r[k] <= '9'
  {
    if n < 10 then [DigitChar(n)] else Decimal(n / 10) + [DigitChar(n % 10)]
  }

  /** The number a string of decimal digits denotes (Python's `int(s)`). */
  function DigitsValue(s: string): nat
    requires forall k :: 0 <= k < |s| ==> '0' <= s[k] <= '9'
  {
    if s == [] then 0 else DigitsValue(s[..|s| - 1]) * 10 + (s[|s| - 1] as int - '0' as int)
  }

  /** `str(n)` denotes `n` and has no leading zero unless it is `"0"`. */
  lemma {:induction false} DecimalValue(n: nat)
    ensures DigitsValue(Decimal(n)) == n
    ensures Decimal(n)[0] != '0' || n == 0
  {
    var s := Decimal(n);
    if n < 10 {
      assert s == [DigitChar(n)] && s[..0] == [];
    } else {
      DecimalValue(n / 10);
      assert s[..|s| - 1] == Decimal(n / 10);
      assert s[0] == Decimal(n / 10)[0];
    }
  }

  /** Python's `str(n)` for any integer. */
  function IntText(n: int): (r: string)
    ensures r != []
  {
    if n < 0 then "-" + Decimal(-n) else Decimal(n)
  }
}
