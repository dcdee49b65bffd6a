/**
 * The Rust `str` operations the RLE decoder relies on, as functions on
 * `seq<char>`: `lines`, `split`, `trim`, `contains`, `ends_with`,
 * `replace(pattern, "")`, `collect::<String>()` and `usize::from_str`.
 */
module RustStr {
  import opened Primitives

  predicate StartsWith(s: string, prefix: string)
  {
    |prefix| <= |s| && s[..|prefix|] == prefix
  }

  predicate EndsWith(s: string, suffix: string)
  {
    |suffix| <= |s| && s[|s| - |suffix|..] == suffix
  }

  lemma EndsWithAppended(stem: string, suffix: string)
    ensures EndsWith(stem + suffix, suffix)
  {
    assert (stem + suffix)[|stem|..] == suffix;
  }

  // ---------------------------------------------------------------------------
  // Searching
  // ---------------------------------------------------------------------------

  /** The first position at which `pattern` occurs in `s`. */
  function Find(s: string, pattern: string): (r: Option<nat>)
    ensures r.Some? ==> r.value + |pattern| <= |s|
    decreases |s|
  {
    if StartsWith(s, pattern) then Some(0)
    else if s == [] then None
    else
      var r := Find(s[1..], pattern);
      if r.None? then None else Some(r.value + 1)
  }

  /** What `Find` reports is an occurrence. */
  lemma {:induction false} FindFound(s: string, pattern: string)
    requires Find(s, pattern).Some?
    ensures var i := Find(s, pattern).value; s[i..i + |pattern|] == pattern
    decreases |s|
  {
    if !StartsWith(s, pattern) {
      FindFound(s[1..], pattern);
      var i := Find(s[1..], pattern).value;
      assert s[i + 1..i + 1 + |pattern|] == s[1..][i..i + |pattern|];
    }
  }

  /** `Find` misses no occurrence: it reports the given one or an earlier one. */
  lemma {:induction false} FindFirst(s: string, pattern: string, k: nat)
    requires k + |pattern| <= |s| && s[k..k + |pattern|] == pattern
    ensures Find(s, pattern).Some? && Find(s, pattern).value <= k
    decreases k
  {
    if k > 0 && !StartsWith(s, pattern) {
      assert s[1..][k - 1..k - 1 + |pattern|] == s[k..k + |pattern|];
      FindFirst(s[1..], pattern, k - 1);
    }
  }

  /** `str::contains` with a string pattern. */
  predicate Contains(s: string, pattern: string)
  {
    Find(s, pattern).Some?
  }

  lemma ContainsAt(s: string, pattern: string, k: nat)
    requires k + |pattern| <= |s| && s[k..k + |pattern|] == pattern
    ensures Contains(s, pattern)
  {
    FindFirst(s, pattern, k);
  }

  /** An occurrence of `pattern` cannot start at a character `pattern` does not begin with. */
  lemma {:induction false} FindSkipsPrefix(a: string, b: string, pattern: string)
    requires |pattern| > 0 && pattern[0] !in a
    ensures Find(a + b, pattern) == (if Find(b, pattern).Some? then Some(|a| + Find(b, pattern).value) else None)
    decreases |a|
  {
    if a == [] {
      assert a + b == b;
    } else {
      var s := a + b;
      assert s[0] == a[0] && s[1..] == a[1..] + b;
      assert !StartsWith(s, pattern) by {
        if |pattern| <= |s| { assert s[..|pattern|][0] == s[0]; }
      }
      FindSkipsPrefix(a[1..], b, pattern);
      assert Find(s, pattern) == (var r := Find(s[1..], pattern); if r.None? then None else Some(r.value + 1));
    }
  }

  /** `str::replace(pattern, "")`: every non-overlapping occurrence, leftmost first, removed. */
  function RemoveAll(s: string, pattern: string): (r: string)
    requires |pattern| > 0
    ensures |r| <= |s|
    decreases |s|
  {
    if s == [] then []
    else if StartsWith(s, pattern) then RemoveAll(s[|pattern|..], pattern)
    else [s[0]] + RemoveAll(s[1..], pattern)
  }

  lemma {:induction false} RemoveAllAbsent(s: string, pattern: string)
    requires |pattern| > 0 && pattern[0] !in s
    ensures RemoveAll(s, pattern) == s
    decreases |s|
  {
    if s != [] {
      assert !StartsWith(s, pattern) by {
        if |pattern| <= |s| { assert s[..|pattern|][0] == s[0]; }
      }
      RemoveAllAbsent(s[1..], pattern);
    }
  }

  // ---------------------------------------------------------------------------
  // Splitting and joining
  // ---------------------------------------------------------------------------

  /** `str::split(sep)`: the pieces between separators; always at least one. */
  function Split(s: string, sep: char): (pieces: seq<string>)
    ensures |pieces| >= 1
    ensures forall k :: 0 <= k < |pieces| ==> sep !in pieces[k]
    decreases |s|
  {
    if s == [] then [[]]
    else
      var rest := Split(s[1..], sep);
      if s[0] == sep then [[]] + rest
      else [[s[0]] + rest[0]] + rest[1..]
  }

  /** The pieces put back together with one separator between neighbours. */
  function Join(pieces: seq<string>, sep: char): string
  {
    if |pieces| == 0 then []
    else if |pieces| == 1 then pieces[0]
    else pieces[0] + [sep] + Join(pieces[1..], sep)
  }

  /** Splitting loses nothing: joining the pieces gives the text back. */
  lemma {:induction false} JoinSplit(s: string, sep: char)
    ensures Join(Split(s, sep), sep) == s
    decreases |s|
  {
    if s != [] {
      var rest := Split(s[1..], sep);
      JoinSplit(s[1..], sep);
      if s[0] == sep {
        assert Split(s, sep) == [[]] + rest;
        assert s == [sep] + s[1..];
      } else {
        var pieces := Split(s, sep);
        assert pieces == [[s[0]] + rest[0]] + rest[1..];
        if |rest| == 1 {
          assert s == [s[0]] + s[1..];
        } else {
          assert pieces[1..] == rest[1..];
          assert Join(rest, sep) == rest[0] + [sep] + Join(rest[1..], sep);
          assert s == [s[0]] + s[1..];
        }
      }
    }
  }

  /** And the other way round: separator-free pieces are recovered from their join. */
  lemma {:induction false} SplitJoin(pieces: seq<string>, sep: char)
    requires |pieces| >= 1
    requires forall k :: 0 <= k < |pieces| ==> sep !in pieces[k]
    ensures Split(Join(pieces, sep), sep) == pieces
    decreases |pieces|
  {
    if |pieces| == 1 {
      SplitNoSeparator(pieces[0], sep);
    } else {
      SplitJoin(pieces[1..], sep);
      SplitAroundSeparator(pieces[0], Join(pieces[1..], sep), sep);
      assert [pieces[0]] + pieces[1..] == pieces;
    }
  }

  lemma {:induction false} SplitNoSeparator(s: string, sep: char)
    requires sep !in s
    ensures Split(s, sep) == [s]
    decreases |s|
  {
    if s != [] {
      SplitNoSeparator(s[1..], sep);
      assert [s[0]] + s[1..] == s;
    }
  }

  /** Text without separators, a separator, then anything: the first piece is that text. */
  lemma {:induction false} SplitAroundSeparator(a: string, b: string, sep: char)
    requires sep !in a
    ensures Split(a + [sep] + b, sep) == [a] + Split(b, sep)
    decreases |a|
  {
    if a == [] {
      assert a + [sep] + b == [sep] + b;
      assert ([sep] + b)[1..] == b;
    } else {
      var s := a + [sep] + b;
      assert s[0] == a[0] && s[1..] == a[1..] + [sep] + b;
      SplitAroundSeparator(a[1..], b, sep);
      assert [a[0]] + a[1..] == a;
    }
  }

  /** `collect::<String>()` over a sequence of lines: their plain concatenation. */
  function Concat(lines: seq<string>): (s: string)
    ensures |lines| == 1 ==> s == lines[0]
  {
    if lines == [] then [] else lines[0] + Concat(lines[1..])
  }

  lemma ConcatCons(line: string, rest: seq<string>)
    ensures Concat([line] + rest) == line + Concat(rest)
  {
    assert ([line] + rest)[0] == line && ([line] + rest)[1..] == rest;
  }

  // ---------------------------------------------------------------------------
  // Lines
  // ---------------------------------------------------------------------------

  function StripCarriageReturn(line: string): string
  {
    if |line| > 0 && line[|line| - 1] == '\r' then line[..|line| - 1] else line
  }

  /**
   * `str::lines`: the text cut at every `\n`, a `\r` just before a `\n` dropped,
   * and no empty line after a final `\n`.
   */
  function Lines(s: string): (lines: seq<string>)
    ensures forall k :: 0 <= k < |lines| ==> '\n' !in lines[k]
  {
    var pieces := Split(s, '\n');
    var ended := pieces[..|pieces| - 1];
    var last := pieces[|pieces| - 1];
    seq(|ended|, k requires 0 <= k < |ended| => StripCarriageReturn(ended[k]))
      + (if last == [] then [] else [last])
  }

  /** The first line of a text is everything before its first `\n`. */
  lemma LinesCons(a: string, b: string)
    requires '\n' !in a
    ensures Lines(a + "\n" + b) == [StripCarriageReturn(a)] + Lines(b)
  {
    SplitAroundSeparator(a, b, '\n');
    var pieces := Split(a + "\n" + b, '\n');
    var rest := Split(b, '\n');
    assert pieces == [a] + rest;
    assert pieces[..|pieces| - 1] == [a] + rest[..|rest| - 1];
  }

  /** A text without `\n` is one line, or none when it is empty. */
  lemma LinesSingle(a: string)
    requires '\n' !in a
    ensures Lines(a) == if a == [] then [] else [a]
  {
    SplitNoSeparator(a, '\n');
  }

  // ---------------------------------------------------------------------------
  // Trimming
  // ---------------------------------------------------------------------------

  /** `char::is_whitespace`: the Unicode White_Space property. */
  predicate IsWhitespace(c: char)
  {
    var n := c as int;
    (0x09 <= n <= 0x0D) || n == 0x20 || n == 0x85 || n == 0xA0 || n == 0x1680
    || (0x2000 <= n <= 0x200A) || n == 0x2028 || n == 0x2029 || n == 0x202F
    || n == 0x205F || n == 0x3000
  }

  predicate AllWhitespace(s: string)
  {
    forall k :: 0 <= k < |s| ==> IsWhitespace(s[k])
  }

  function TrimStart(s: string): (r: string)
    ensures |r| <= |s| && r == s[|s| - |r|..]
    ensures forall k :: 0 <= k < |s| - |r| ==> IsWhitespace(s[k])
    ensures r != [] ==> !IsWhitespace(r[0])
    decreases |s|
  {
    if s != [] && IsWhitespace(s[0]) then TrimStart(s[1..]) else s
  }

  function TrimEnd(s: string): (r: string)
    ensures |r| <= |s| && r == s[..|r|]
    ensures forall k :: |r| <= k < |s| ==> IsWhitespace(s[k])
    ensures r != [] ==> !IsWhitespace(r[|r| - 1])
    decreases |s|
  {
    if s != [] && IsWhitespace(s[|s| - 1]) then TrimEnd(s[..|s| - 1]) else s
  }

  /** Whitespace cut off the front of `s` leaves `t`, and cut off the back of `t` leaves `r`. */
  lemma WhitespaceAround(s: string, t: string, r: string)
    requires |t| <= |s| && t == s[|s| - |t|..] && forall k :: 0 <= k < |s| - |t| ==> IsWhitespace(s[k])
    requires |r| <= |t| && r == t[..|r|] && forall k :: |r| <= k < |t| ==> IsWhitespace(t[k])
    ensures s == s[..|s| - |t|] + r + t[|r|..]
    ensures AllWhitespace(s[..|s| - |t|]) && AllWhitespace(t[|r|..])
  {
    assert s == s[..|s| - |t|] + t;
    assert t == r + t[|r|..];
  }

  /** `str::trim`: the text with leading and trailing whitespace removed. */
  function Trim(s: string): (r: string)
    ensures r != [] ==> !IsWhitespace(r[0]) && !IsWhitespace(r[|r| - 1])
    // only whitespace is cut, before and after the result
    ensures exists a, b :: s == a + r + b && AllWhitespace(a) && AllWhitespace(b)
  {
    var t := TrimStart(s);
    var r := TrimEnd(t);
    var a, b := s[..|s| - |t|], t[|r|..];
    assert s == a + r + b && AllWhitespace(a) && AllWhitespace(b) by {
      WhitespaceAround(s, t, r);
    }
    r
  }

  // ---------------------------------------------------------------------------
  // Decimal numbers
  // ---------------------------------------------------------------------------

  predicate IsDigit(c: char)
  {
    '0' <= c <= '9'
  }

  predicate AllDigits(s: string)
  {
    forall k :: 0 <= k < |s| ==> IsDigit(s[k])
  }

  function DigitValue(c: char): (d: nat)
    requires IsDigit(c)
    ensures d < 10
  {
    (c as int) - ('0' as int)
  }

  function Digit(d: nat): (c: char)
    requires d < 10
    ensures IsDigit(c) && DigitValue(c) == d
  {
    (('0' as int) + d) as char
  }

  /** Reading digits left to right into an accumulator: `acc * 10 + d` per digit. */
  function FoldDigits(acc: nat, s: string): nat
    requires AllDigits(s)
    decreases |s|
  {
    if s == [] then acc else FoldDigits(acc * 10 + DigitValue(s[0]), s[1..])
  }

  lemma {:induction false} FoldDigitsAppend(acc: nat, a: string, b: string)
    requires AllDigits(a) && AllDigits(b)
    ensures AllDigits(a + b)
    ensures FoldDigits(acc, a + b) == FoldDigits(FoldDigits(acc, a), b)
    decreases |a|
  {
    assert forall k :: 0 <= k < |a + b| ==> (a + b)[k] == if k < |a| then a[k] else b[k - |a|];
    if a == [] {
      assert a + b == b;
    } else {
      assert (a + b)[0] == a[0] && (a + b)[1..] == a[1..] + b;
      assert FoldDigits(acc, a + b) == FoldDigits(acc * 10 + DigitValue(a[0]), a[1..] + b);
      FoldDigitsAppend(acc * 10 + DigitValue(a[0]), a[1..], b);
    }
  }

  /** `usize::from_str`: an optional `+`, then at least one digit, and no overflow. */
  function ParseUsize(s: string): (r: Option<usize>)
    ensures r.Some? ==> |s| > 0
  {
    var digits := if |s| > 0 && s[0] == '+' then s[1..] else s;
    if digits == [] || !AllDigits(digits) then None
    else
      var v := FoldDigits(0, digits);
      if v <= USIZE_MAX then Some(v) else None
  }

  /** The decimal rendering of a number, most significant digit first. */
  function ShowNat(n: nat): (s: string)
    ensures |s| >= 1 && AllDigits(s)
  {
    if n < 10 then [Digit(n)] else ShowNat(n / 10) + [Digit(n % 10)]
  }

  lemma {:induction false} FoldShowNat(n: nat)
    ensures FoldDigits(0, ShowNat(n)) == n
  {
    if n >= 10 {
      FoldShowNat(n / 10);
      FoldDigitsAppend(0, ShowNat(n / 10), [Digit(n % 10)]);
    }
  }

  /** A number's decimal rendering parses back to that number. */
  lemma ParseShowNat(n: usize)
    ensures ParseUsize(ShowNat(n)) == Some(n)
  {
    FoldShowNat(n);
    assert IsDigit(ShowNat(n)[0]);
  }
}
