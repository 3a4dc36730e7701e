/**
 * The JavaScript string built-ins the light-state program relies on:
 * `trim`, `split("\n")`, `includes`, and `Number` applied to a string of
 * decimal digits.
 */
module Text {

  /** The characters `String.prototype.trim` removes: ECMAScript's WhiteSpace and LineTerminator sets. */
  predicate IsWhiteSpace(c: char)
  {
    c == '\t' || c == '\n' || c == '\U{B}' || c == '\U{C}' || c == '\r' || c == ' '
    || c == '\U{A0}' || c == '\U{1680}' || ('\U{2000}' <= c <= '\U{200A}')
    || c == '\U{2028}' || c == '\U{2029}' || c == '\U{202F}' || c == '\U{205F}'
    || c == '\U{3000}' || c == '\U{FEFF}'
  }

  /** Neither end of `s` is white space. */
  predicate IsTrimmed(s: string)
  {
    s == [] || (!IsWhiteSpace(s[0]) && !IsWhiteSpace(s[|s| - 1]))
  }

  /**
   * `r` is the slice of `s` that starts at `i`, and everything of `s` before
   * and after that slice is white space.
   */
  predicate SliceAmidWhiteSpace(s: string, r: string, i: int)
  {
    0 <= i <= |s| - |r| && r == s[i..i + |r|]
    && (forall k :: 0 <= k < i ==> IsWhiteSpace(s[k]))
    && (forall k :: i + |r| <= k < |s| ==> IsWhiteSpace(s[k]))
  }

  /**
   * `s.trim()`: the slice of `s` between its leading and its trailing run of
   * white space.
   */
  function Trim(s: string): string
  {
    var a := RunEnd(s, 0, IsWhiteSpace);
    s[a..RunStart(s, a, |s|, IsWhiteSpace)]
  }

  /**
   * What `trim` returns neither starts nor ends with white space, and it is
   * a slice of `s` with only white space around it.
   */
  lemma TrimSpec(s: string)
    ensures IsTrimmed(Trim(s))
    ensures exists i :: SliceAmidWhiteSpace(s, Trim(s), i)
  {
    var a := RunEnd(s, 0, IsWhiteSpace);
    var b := RunStart(s, a, |s|, IsWhiteSpace);
    RunEndSpec(s, 0, IsWhiteSpace);
    RunStartSpec(s, a, |s|, IsWhiteSpace);
    assert SliceAmidWhiteSpace(s, s[a..b], a);
  }

  /** A string with no white space at either end is left as it is by `trim`. */
  lemma TrimmedIsFixed(s: string)
    requires IsTrimmed(s)
    ensures Trim(s) == s
  {
    if s != [] {
      RunEndUnique(s, 0, 0, IsWhiteSpace);
      RunStartUnique(s, 0, |s|, |s|, IsWhiteSpace);
    }
  }

  /** `s.split("\n")`: the pieces between newlines, one more than there are newlines. */
  function Split(s: string): (lines: seq<string>)
    ensures |lines| == Occurrences(s, '\n') + 1
    ensures forall k :: 0 <= k < |lines| ==> '\n' !in lines[k]
    decreases |s|
  {
    if s == [] then [""]
    else
      var rest := Split(s[1..]);
      if s[0] == '\n' then [""] + rest
      else [[s[0]] + rest[0]] + rest[1..]
  }

  /** The number of times `c` occurs in `s`. */
  function Occurrences(s: string, c: char): nat
    decreases |s|
  {
    if s == [] then 0 else (if s[0] == c then 1 else 0) + Occurrences(s[1..], c)
  }

  /** `lines.join("\n")`, the inverse of `Split`. */
  function Join(lines: seq<string>): string
    requires |lines| >= 1
    decreases |lines|
  {
    if |lines| == 1 then lines[0] else lines[0] + "\n" + Join(lines[1..])
  }

  /** Joining the pieces of a split gives back the text. */
  lemma {:induction false} JoinSplit(s: string)
    ensures Join(Split(s)) == s
    decreases |s|
  {
    if s != [] {
      JoinSplit(s[1..]);
      var rest := Split(s[1..]);
      if s[0] == '\n' {
        assert Split(s)[1..] == rest;
      } else {
        var lines := Split(s);
        if |rest| == 1 {
          assert lines == [[s[0]] + rest[0]];
        } else {
          assert lines[1..] == rest[1..];
          assert Join(rest) == rest[0] + "\n" + Join(rest[1..]);
        }
      }
    }
  }

  /** Splitting text with no newline gives the text alone. */
  lemma {:induction false} SplitNoNewline(s: string)
    requires '\n' !in s
    ensures Split(s) == [s]
    decreases |s|
  {
    if s != [] {
      assert '\n' !in s[1..] by {
        forall k | 0 <= k < |s[1..]| ensures s[1..][k] != '\n' { assert s[1..][k] == s[k + 1]; }
      }
      SplitNoNewline(s[1..]);
      assert [s[0]] + s[1..] == s;
    }
  }

  /** A newline-free prefix followed by a newline is split off as one piece. */
  lemma {:induction false} SplitAtNewline(a: string, rest: string)
    requires '\n' !in a
    ensures Split(a + "\n" + rest) == [a] + Split(rest)
    decreases |a|
  {
    if a == [] {
      assert a + "\n" + rest == ['\n'] + rest;
      assert (['\n'] + rest)[1..] == rest;
    } else {
      var s := a + "\n" + rest;
      assert s[1..] == a[1..] + "\n" + rest;
      assert '\n' !in a[1..] by {
        forall k | 0 <= k < |a[1..]| ensures a[1..][k] != '\n' { assert a[1..][k] == a[k + 1]; }
      }
      SplitAtNewline(a[1..], rest);
      assert [a[0]] + a[1..] == a;
    }
  }

  /** Splitting the join of newline-free pieces gives back the pieces. */
  lemma {:induction false} SplitJoin(lines: seq<string>)
    requires |lines| >= 1
    requires forall k :: 0 <= k < |lines| ==> '\n' !in lines[k]
    ensures Split(Join(lines)) == lines
    decreases |lines|
  {
    if |lines| == 1 {
      SplitNoNewline(lines[0]);
    } else {
      SplitJoin(lines[1..]);
      SplitAtNewline(lines[0], Join(lines[1..]));
      assert [lines[0]] + lines[1..] == lines;
    }
  }

  /** `sub` occurs in `s` starting at position `i`. */
  predicate OccursAt(s: string, sub: string, i: int)
  {
    0 <= i <= |s| - |sub| && s[i..i + |sub|] == sub
  }

  /** `s.includes(sub)`: `sub` occurs in `s` at some position. */
  function Includes(s: string, sub: string): (r: bool)
    ensures r <==> exists i :: OccursAt(s, sub, i)
    decreases |s|
  {
    if |s| < |sub| then false
    else if s[..|sub|] == sub then assert OccursAt(s, sub, 0); true
    else
      var r := Includes(s[1..], sub);
      assert r ==> exists i :: OccursAt(s, sub, i) by {
        if r {
          var j :| OccursAt(s[1..], sub, j);
          assert OccursAt(s, sub, j + 1);
        }
      }
      assert (exists i :: OccursAt(s, sub, i)) ==> r by {
        if exists i :: OccursAt(s, sub, i) {
          var i :| OccursAt(s, sub, i);
          assert OccursAt(s[1..], sub, i - 1);
        }
      }
      r
  }

  /** JavaScript's `\d`: an ASCII decimal digit. */
  predicate IsDigit(c: char)
  {
    '0' <= c <= '9'
  }

  predicate AllDigits(d: string)
  {
    forall k :: 0 <= k < |d| ==> IsDigit(d[k])
  }

  /** A slice of `s` is all digits exactly when each of its positions in `s` holds a digit. */
  lemma AllDigitsSlice(s: string, i: int, j: int)
    requires 0 <= i <= j <= |s|
    ensures AllDigits(s[i..j]) <==> forall k :: i <= k < j ==> IsDigit(s[k])
  {
    assert forall k :: i <= k < j ==> s[i..j][k - i] == s[k];
  }

  /** `x + y` occurs at `i` exactly when `x` occurs at `i` and `y` right after it. */
  lemma OccursAtConcat(s: string, x: string, y: string, i: int)
    ensures OccursAt(s, x + y, i) <==> OccursAt(s, x, i) && OccursAt(s, y, i + |x|)
  {
    if OccursAt(s, x, i) && OccursAt(s, y, i + |x|) {
      assert s[i..i + |x + y|] == s[i..i + |x|] + s[i + |x|..i + |x| + |y|];
    }
    if OccursAt(s, x + y, i) {
      assert s[i..i + |x|] == s[i..i + |x + y|][..|x|];
      assert s[i + |x|..i + |x| + |y|] == s[i..i + |x + y|][|x|..];
    }
  }

  /**
   * The end of the longest run of characters satisfying `p` that starts at
   * `i`: the index a greedy `p+` or `p*` stops at.
   */
  function RunEnd(s: string, i: nat, p: char -> bool): (k: nat)
    requires i <= |s|
    ensures i <= k <= |s|
    decreases |s| - i
  {
    if i < |s| && p(s[i]) then RunEnd(s, i + 1, p) else i
  }

  /** Every character of the run satisfies `p`, and the one after it, if any, does not. */
  lemma {:induction false} RunEndSpec(s: string, i: nat, p: char -> bool)
    requires i <= |s|
    ensures forall j :: i <= j < RunEnd(s, i, p) ==> p(s[j])
    ensures RunEnd(s, i, p) == |s| || !p(s[RunEnd(s, i, p)])
    decreases |s| - i
  {
    if i < |s| && p(s[i]) {
      RunEndSpec(s, i + 1, p);
    }
  }

  /**
   * The start of the longest run of characters satisfying `p` that ends at
   * `j` and does not reach below `lo`, found by scanning backwards.
   */
  function RunStart(s: string, lo: nat, j: nat, p: char -> bool): (k: nat)
    requires lo <= j <= |s|
    ensures lo <= k <= j
    decreases j
  {
    if j > lo && p(s[j - 1]) then RunStart(s, lo, j - 1, p) else j
  }

  /** Every character of the run satisfies `p`, and the one before it, if above `lo`, does not. */
  lemma {:induction false} RunStartSpec(s: string, lo: nat, j: nat, p: char -> bool)
    requires lo <= j <= |s|
    ensures forall i :: RunStart(s, lo, j, p) <= i < j ==> p(s[i])
    ensures RunStart(s, lo, j, p) == lo || !p(s[RunStart(s, lo, j, p) - 1])
    decreases j
  {
    if j > lo && p(s[j - 1]) {
      RunStartSpec(s, lo, j - 1, p);
    }
  }

  /** The run of `p` characters that starts at `i` is determined by where it ends. */
  lemma {:induction false} RunEndUnique(s: string, i: nat, k: nat, p: char -> bool)
    requires i <= k <= |s|
    requires forall j :: i <= j < k ==> p(s[j])
    requires k == |s| || !p(s[k])
    ensures RunEnd(s, i, p) == k
    decreases k - i
  {
    if i < k {
      RunEndUnique(s, i + 1, k, p);
    }
  }

  /** The run of `p` characters that ends at `j` is determined by where it starts. */
  lemma {:induction false} RunStartUnique(s: string, lo: nat, j: nat, k: nat, p: char -> bool)
    requires lo <= k <= j <= |s|
    requires forall i :: k <= i < j ==> p(s[i])
    requires k == lo || !p(s[k - 1])
    ensures RunStart(s, lo, j, p) == k
    decreases j - k
  {
    if k < j {
      RunStartUnique(s, lo, j - 1, k, p);
    }
  }

  function Pow10(n: nat): nat
  {
    if n == 0 then 1 else 10 * Pow10(n - 1)
  }

  /** `Number(d)` for a non-empty string of decimal digits: below 10 to the number of digits. */
  function DecimalValue(d: string): (n: nat)
    requires AllDigits(d)
    ensures n < Pow10(|d|)
    decreases |d|
  {
    if d == [] then 0
    else 10 * DecimalValue(d[..|d| - 1]) + (d[|d| - 1] as int - '0' as int)
  }
}
