/**
 * What the RLE decoder of src/parsers.rs guarantees: the meaning of the
 * metadata lines, the header round trip, the per-token behaviour of a row
 * segment, how the body ends, and the order of the emitted cells.
 */
module RleProperties {
  import opened Primitives
  import opened RustStr
  import opened Parsers

  // ---------------------------------------------------------------------------
  // Metadata
  // ---------------------------------------------------------------------------

  /** A `#` line the metadata pass accepts: a bare `#`, or `#N`, `#C`, `#c`, `#O`. */
  predicate KnownDirective(line: string)
  {
    |line| <= 1 || line[1] == 'N' || line[1] == 'C' || line[1] == 'c' || line[1] == 'O'
  }

  lemma CountCommentsTail(lines: seq<string>)
    requires lines != [] && IsComment(lines[0])
    ensures CountComments(lines[1..]) == CountComments(lines) - 1
  {
  }

  /** The metadata pass succeeds exactly when every leading `#` line has a known directive. */
  lemma {:induction false} MetadataSucceeds(p: Pattern, lines: seq<string>)
    ensures Metadata(p, lines).Ok? <==> forall k :: 0 <= k < CountComments(lines) ==> KnownDirective(lines[k])
    decreases |lines|
  {
    if lines != [] && IsComment(lines[0]) {
      CountCommentsTail(lines);
      var n := CountComments(lines);
      var rest := lines[1..];
      assert forall k :: 1 <= k < n ==> lines[k] == rest[k - 1];
      if KnownDirective(lines[0]) {
        MetadataSucceeds(MetaLine(p, lines[0]).value, rest);
        if forall k :: 0 <= k < n - 1 ==> KnownDirective(rest[k]) {
          assert forall k :: 0 <= k < n ==> KnownDirective(lines[k]) by {
            forall k | 0 <= k < n ensures KnownDirective(lines[k]) {
              if k > 0 { assert KnownDirective(rest[k - 1]); }
            }
          }
        } else {
          var j :| 0 <= j < n - 1 && !KnownDirective(rest[j]);
          assert !KnownDirective(lines[j + 1]);
        }
      }
    }
  }

  /** When it fails, the error names the directive of the first unknown `#` line. */
  lemma {:induction false} MetadataFailsAtFirstUnknown(p: Pattern, lines: seq<string>, k: nat)
    requires k < CountComments(lines) && !KnownDirective(lines[k])
    requires forall j :: 0 <= j < k ==> KnownDirective(lines[j])
    ensures Metadata(p, lines) == Err(UnknownMetadata(lines[k][1]))
    decreases k
  {
    if k > 0 {
      CountCommentsTail(lines);
      var rest := lines[1..];
      assert forall j :: 0 <= j < k - 1 ==> rest[j] == lines[j + 1];
      MetadataFailsAtFirstUnknown(MetaLine(p, lines[0]).value, rest, k - 1);
    }
  }

  /** The trimmed texts of the leading `#` lines whose directive is one of `directives`, in order. */
  function Texts(lines: seq<string>, directives: set<char>): seq<string>
    decreases |lines|
  {
    if lines == [] || !IsComment(lines[0]) then []
    else
      (if |lines[0]| > 1 && lines[0][1] in directives then [Trim(lines[0][2..])] else [])
      + Texts(lines[1..], directives)
  }

  function NonEmpty(texts: seq<string>): seq<string>
  {
    if texts == [] then []
    else (if texts[0] != [] then [texts[0]] else []) + NonEmpty(texts[1..])
  }

  /** The last of the texts, or `otherwise` when there is none. */
  function Last(texts: seq<string>, otherwise: Option<string>): Option<string>
  {
    if texts == [] then otherwise else Some(texts[|texts| - 1])
  }

  /** A description extended by the given texts, one `\n` between each two. */
  function Described(d: Option<string>, texts: seq<string>): Option<string>
  {
    if texts == [] then d
    else if d.None? then Some(Join(texts, '\n'))
    else Some(Join([d.value] + texts, '\n'))
  }

  lemma JoinCons(a: string, rest: seq<string>, sep: char)
    requires rest != []
    ensures Join([a] + rest, sep) == a + [sep] + Join(rest, sep)
  {
    assert ([a] + rest)[1..] == rest;
  }

  lemma LastCons(t: string, texts: seq<string>, otherwise: Option<string>)
    ensures Last([t] + texts, otherwise) == Last(texts, Some(t))
  {
  }

  lemma DescribedCons(d: Option<string>, t: string, texts: seq<string>)
    ensures Described(Some(if d.Some? then d.value + "\n" + t else t), texts) == Described(d, [t] + texts)
  {
    if texts != [] {
      var d' := if d.Some? then d.value + "\n" + t else t;
      JoinCons(d', texts, '\n');
      JoinCons(t, texts, '\n');
      if d.Some? {
        JoinCons(d.value, [t] + texts, '\n');
        assert [d.value] + ([t] + texts) == [d.value] + [t] + texts;
        assert Described(d, [t] + texts) == Some(d.value + ['\n'] + (t + ['\n'] + Join(texts, '\n')));
        assert d' + ['\n'] + Join(texts, '\n') == d.value + ['\n'] + (t + ['\n'] + Join(texts, '\n'));
      }
    } else if d.Some? {
      JoinCons(d.value, [t], '\n');
      assert [t] + texts == [t];
      assert Join([t], '\n') == t;
      assert Described(d, [t]) == Some(d.value + "\n" + t);
    }
  }

  /** The texts of a `#` line followed by more lines. */
  lemma TextsCons(lines: seq<string>, directives: set<char>)
    requires lines != [] && IsComment(lines[0])
    ensures Texts(lines, directives)
      == (if |lines[0]| > 1 && lines[0][1] in directives then [Trim(lines[0][2..])] else [])
         + Texts(lines[1..], directives)
  {
  }

  /** One metadata line: which field, if any, it sets, and to what. */
  lemma MetaLineEffect(p: Pattern, line: string)
    requires IsComment(line) && MetaLine(p, line).Ok?
    ensures var q, t := MetaLine(p, line).value, if |line| > 1 then Trim(line[2..]) else [];
      && q.cells == p.cells && q.area == p.area
      && q.name == (if |line| > 1 && line[1] == 'N' && t != [] then Some(t) else p.name)
      && q.author == (if |line| > 1 && line[1] == 'O' then Some(t) else p.author)
      && q.description == (if |line| > 1 && (line[1] == 'C' || line[1] == 'c')
                           then Some(if p.description.Some? then p.description.value + "\n" + t else t)
                           else p.description)
  {
  }

  /** The metadata pass leaves the cells and the area alone. */
  lemma {:induction false} MetadataKeepsCells(p: Pattern, lines: seq<string>)
    requires Metadata(p, lines).Ok?
    ensures Metadata(p, lines).value.cells == p.cells
    ensures Metadata(p, lines).value.area == p.area
    decreases |lines|
  {
    if lines != [] && IsComment(lines[0]) {
      MetaLineEffect(p, lines[0]);
      MetadataKeepsCells(MetaLine(p, lines[0]).value, lines[1..]);
    }
  }

  /** After a successful metadata pass the name is the last non-empty `#N` text. */
  lemma {:induction false} MetadataName(p: Pattern, lines: seq<string>)
    requires Metadata(p, lines).Ok?
    ensures Metadata(p, lines).value.name == Last(NonEmpty(Texts(lines, {'N'})), p.name)
    decreases |lines|
  {
    if lines != [] && IsComment(lines[0]) {
      var line, rest := lines[0], lines[1..];
      var q := MetaLine(p, line).value;
      MetaLineEffect(p, line);
      MetadataName(q, rest);
      TextsCons(lines, {'N'});
      var ts := Texts(rest, {'N'});
      if |line| > 1 && line[1] == 'N' {
        var t := Trim(line[2..]);
        if t != [] {
          assert NonEmpty([t] + ts) == [t] + NonEmpty(ts);
          LastCons(t, NonEmpty(ts), p.name);
        } else {
          assert NonEmpty([t] + ts) == NonEmpty(ts);
        }
      } else {
        assert Texts(lines, {'N'}) == Texts(rest, {'N'});
      }
    }
  }

  /** ... the author is the last `#O` text, an empty one included. */
  lemma {:induction false} MetadataAuthor(p: Pattern, lines: seq<string>)
    requires Metadata(p, lines).Ok?
    ensures Metadata(p, lines).value.author == Last(Texts(lines, {'O'}), p.author)
    decreases |lines|
  {
    if lines != [] && IsComment(lines[0]) {
      var line, rest := lines[0], lines[1..];
      var q := MetaLine(p, line).value;
      MetaLineEffect(p, line);
      MetadataAuthor(q, rest);
      TextsCons(lines, {'O'});
      if |line| > 1 && line[1] == 'O' {
        LastCons(Trim(line[2..]), Texts(rest, {'O'}), p.author);
      } else {
        assert Texts(lines, {'O'}) == Texts(rest, {'O'});
      }
    }
  }

  /** ... and the description is every `#C` and `#c` text, in order, one `\n` between each two. */
  lemma {:induction false} MetadataDescription(p: Pattern, lines: seq<string>)
    requires Metadata(p, lines).Ok?
    ensures Metadata(p, lines).value.description == Described(p.description, Texts(lines, {'C', 'c'}))
    decreases |lines|
  {
    if lines != [] && IsComment(lines[0]) {
      var line, rest := lines[0], lines[1..];
      var q := MetaLine(p, line).value;
      MetaLineEffect(p, line);
      MetadataDescription(q, rest);
      TextsCons(lines, {'C', 'c'});
      if |line| > 1 && (line[1] == 'C' || line[1] == 'c') {
        DescribedCons(p.description, Trim(line[2..]), Texts(rest, {'C', 'c'}));
      } else {
        assert Texts(lines, {'C', 'c'}) == Texts(rest, {'C', 'c'});
      }
    }
  }

  // ---------------------------------------------------------------------------
  // Header
  // ---------------------------------------------------------------------------

  lemma NoCommaInDigits(prefix: string, digits: string)
    requires ',' !in prefix && AllDigits(digits)
    ensures ',' !in prefix + digits
  {
    assert forall k :: 0 <= k < |digits| ==> IsDigit(digits[k]);
  }

  /** Two comma-free fields separated by `, `, then nothing or a further `, `-field: those two fields. */
  lemma FieldsAround(first: string, second: string, tail: string)
    requires ',' !in first && ',' !in second
    requires tail == [] || StartsWith(tail, ", ")
    ensures FirstTwoFields(first + ", " + second + tail) == Some((first, second))
  {
    var after := ", " + second + tail;
    var line := first + after;
    assert first + ", " + second + tail == line;
    assert StartsWith(after, ", ");
    FindSkipsPrefix(first, after, ", ");
    assert line[..|first|] == first;
    var rest := line[|first| + 2..];
    assert rest == second + tail;
    FindSkipsPrefix(second, tail, ", ");
    if tail == [] {
      assert rest == second;
    } else {
      assert rest[..|second|] == second;
    }
  }

  /** The fields of `x = m, y = n` are `x = m` and `y = n`, whatever further fields follow. */
  lemma FieldsOfHeader(d: string, e: string, tail: string)
    requires AllDigits(d) && AllDigits(e)
    requires tail == [] || StartsWith(tail, ", ")
    ensures FirstTwoFields("x = " + d + ", y = " + e + tail) == Some(("x = " + d, "y = " + e))
  {
    NoCommaInDigits("x = ", d);
    NoCommaInDigits("y = ", e);
    assert "x = " + d + ", y = " + e + tail == ("x = " + d) + ", " + ("y = " + e) + tail;
    FieldsAround("x = " + d, "y = " + e, tail);
  }

  /** `key` followed by a decimal number reads back as that number. */
  lemma HeaderNumberOf(key: string, n: usize)
    requires |key| > 0 && key[0] !in ShowNat(n)
    ensures HeaderNumber(key + ShowNat(n), key) == Ok(n)
  {
    var field := key + ShowNat(n);
    assert StartsWith(field, key) && field[|key|..] == ShowNat(n);
    RemoveAllAbsent(ShowNat(n), key);
    ParseShowNat(n);
  }

  /** `x = m, y = n`, with or without further `, `-separated fields, declares the area `(m, n)`. */
  lemma HeaderRoundTrip(m: usize, n: usize, tail: string)
    requires tail == [] || StartsWith(tail, ", ")
    ensures Header("x = " + ShowNat(m) + ", y = " + ShowNat(n) + tail) == Ok(Some((m, n)))
  {
    var d, e := ShowNat(m), ShowNat(n);
    var line := "x = " + d + ", y = " + e + tail;
    assert Contains(line, "x = ") by {
      assert line[0..4] == "x = ";
      ContainsAt(line, "x = ", 0);
    }
    assert Contains(line, "y = ") by {
      assert line[|d| + 6..|d| + 10] == "y = ";
      ContainsAt(line, "y = ", |d| + 6);
    }
    assert AllDigits(d) && AllDigits(e) by {
      assert forall k :: 0 <= k < |d| ==> IsDigit(d[k]);
      assert forall k :: 0 <= k < |e| ==> IsDigit(e[k]);
    }
    FieldsOfHeader(d, e, tail);
    HeaderNumberOf("x = ", m);
    HeaderNumberOf("y = ", n);
  }

  /** A key followed by text without the key's first character: the text is what gets parsed. */
  lemma KeyRemoved(key: string, t: string)
    requires |key| > 0 && key[0] !in t
    ensures RemoveAll(key + t, key) == t
  {
    var field := key + t;
    assert StartsWith(field, key) && field[|key|..] == t;
    RemoveAllAbsent(t, key);
  }

  /** `x = a, y = b` with comma-free `a` and `b` mentions both keys and has the fields `x = a` and `y = b`. */
  lemma HeaderFields(a: string, b: string)
    requires ',' !in a && ',' !in b
    ensures Contains("x = " + a + ", y = " + b, "x = ") && Contains("x = " + a + ", y = " + b, "y = ")
    ensures FirstTwoFields("x = " + a + ", y = " + b) == Some(("x = " + a, "y = " + b))
  {
    var first, second := "x = " + a, "y = " + b;
    var line := first + ", " + second;
    assert "x = " + a + ", y = " + b == line;
    assert line[0..4] == "x = ";
    ContainsAt(line, "x = ", 0);
    assert line[|a| + 6..|a| + 10] == "y = ";
    ContainsAt(line, "y = ", |a| + 6);
    assert ',' !in first by {
      assert forall k :: 0 <= k < |first| ==> first[k] == if k < 4 then "x = "[k] else a[k - 4];
    }
    assert ',' !in second by {
      assert forall k :: 0 <= k < |second| ==> second[k] == if k < 4 then "y = "[k] else b[k - 4];
    }
    assert line + "" == line;
    FieldsAround(first, second, "");
  }

  /** A width that is not a `usize` (empty, not decimal, or too large) fails the header with that text. */
  lemma HeaderWidthInvalid(t: string, n: usize)
    requires ParseUsize(t).None? && ',' !in t && 'x' !in t
    ensures Header("x = " + t + ", y = " + ShowNat(n)) == Err(InvalidHeaderNumber(t))
  {
    NoCommaInDigits([], ShowNat(n));
    assert [] + ShowNat(n) == ShowNat(n);
    HeaderFields(t, ShowNat(n));
    KeyRemoved("x = ", t);
  }

  /** A height that is not a `usize` fails the header with that text, after a valid width. */
  lemma HeaderHeightInvalid(m: usize, t: string)
    requires ParseUsize(t).None? && ',' !in t && 'y' !in t
    ensures Header("x = " + ShowNat(m) + ", y = " + t) == Err(InvalidHeaderNumber(t))
  {
    NoCommaInDigits([], ShowNat(m));
    assert [] + ShowNat(m) == ShowNat(m);
    HeaderFields(ShowNat(m), t);
    HeaderNumberOf("x = ", m);
    KeyRemoved("y = ", t);
  }

  /** `x = m,y = n` (a comma without the space) has no `", "` at all, so no second field. */
  lemma SeparatorRequired(d: string, e: string)
    requires AllDigits(d) && AllDigits(e)
    ensures FirstTwoFields("x = " + d + ",y = " + e) == None
  {
    var second := "y = " + e;
    NoCommaInDigits("x = ", d);
    NoCommaInDigits("y = ", e);
    assert Find(second, ", ") == None by {
      assert second + "" == second;
      FindSkipsPrefix(second, "", ", ");
    }
    var after := "," + second;
    assert Find(after, ", ") == None by {
      assert !StartsWith(after, ", ") by {
        if |after| >= 2 { assert after[..2][1] == after[1] == 'y'; }
      }
      assert after[1..] == second;
    }
    assert "x = " + d + ",y = " + e == ("x = " + d) + after;
    FindSkipsPrefix("x = " + d, after, ", ");
  }

  /** Both keys but no `", "` separator: the header is rejected. The source indexes `v[1]` and panics here. */
  lemma HeaderNeedsSeparator(d: string, e: string)
    requires AllDigits(d) && AllDigits(e)
    ensures Header("x = " + d + ",y = " + e) == Err(HeaderWithoutSeparator)
  {
    var line := "x = " + d + ",y = " + e;
    assert line[0..4] == "x = ";
    ContainsAt(line, "x = ", 0);
    assert line[|d| + 5..|d| + 9] == "y = ";
    ContainsAt(line, "y = ", |d| + 5);
    SeparatorRequired(d, e);
  }

  // ---------------------------------------------------------------------------
  // Row segments
  // ---------------------------------------------------------------------------

  /** A character a row segment may contain before its end: a state or a digit. */
  predicate IsRunChar(c: char)
  {
    c == 'b' || c == '.' || c == 'o' || c == 'A' || IsDigit(c)
  }

  /** A run count, where no digits mean one. */
  function RunLength(digits: string): (k: nat)
    requires AllDigits(digits)
    ensures k >= 1
    ensures digits != [] && FoldDigits(0, digits) != 0 ==> k == FoldDigits(0, digits)
  {
    var k := FoldDigits(0, digits);
    if k == 0 then 1 else k
  }

  /** Digits fold into the pending count as `amount * 10 + d`. */
  lemma {:induction false} DigitsAccumulate(cells: seq<(int, int)>, y: int, digits: string, rest: string, x: int, amount: nat)
    requires AllDigits(digits)
    ensures Segment(cells, y, digits + rest, x, amount) == Segment(cells, y, rest, x, FoldDigits(amount, digits))
    decreases |digits|
  {
    if digits == [] {
      assert digits + rest == rest;
    } else {
      var s := digits + rest;
      assert s[0] == digits[0] && s[1..] == digits[1..] + rest;
      assert IsDigit(digits[0]);
      DigitsAccumulate(cells, y, digits[1..], rest, x, amount * 10 + DigitValue(digits[0]));
    }
  }

  /** `k o` (or `k A`) emits the `k` cells from the cursor and moves past them; a bare `o` is one cell. */
  lemma AliveRun(cells: seq<(int, int)>, y: int, digits: string, c: char, rest: string, x: int)
    requires AllDigits(digits) && (c == 'o' || c == 'A')
    ensures Segment(cells, y, digits + [c] + rest, x, 0)
      == Segment(cells + Run(x, y, RunLength(digits)), y, rest, x + RunLength(digits), 0)
  {
    assert digits + [c] + rest == digits + ([c] + rest);
    DigitsAccumulate(cells, y, digits, [c] + rest, x, 0);
    assert ([c] + rest)[1..] == rest;
    if FoldDigits(0, digits) == 0 {
      assert cells + [(x, y)] == cells + Run(x, y, 1);
    }
  }

  /** `k b` (or `k .`) emits nothing and moves the cursor on by `k`, or by one when bare. */
  lemma DeadRun(cells: seq<(int, int)>, y: int, digits: string, c: char, rest: string, x: int)
    requires AllDigits(digits) && (c == 'b' || c == '.')
    ensures Segment(cells, y, digits + [c] + rest, x, 0)
      == Segment(cells, y, rest, x + RunLength(digits), 0)
  {
    assert digits + [c] + rest == digits + ([c] + rest);
    DigitsAccumulate(cells, y, digits, [c] + rest, x, 0);
    assert ([c] + rest)[1..] == rest;
  }

  /** A character outside `b . o A 0-9 !` fails the parse, naming that character. */
  lemma {:induction false} SegmentFailsAt(cells: seq<(int, int)>, y: int, seg: string, x: int, amount: nat, k: nat)
    requires k < |seg| && !IsRunChar(seg[k]) && seg[k] != '!'
    requires forall j :: 0 <= j < k ==> IsRunChar(seg[j])
    ensures Segment(cells, y, seg, x, amount) == Failed(seg[k])
    decreases k
  {
    if k > 0 {
      var s := seg[1..];
      assert forall j :: 0 <= j < k - 1 ==> s[j] == seg[j + 1];
      assert IsRunChar(seg[0]);
      var c := seg[0];
      if c == 'b' || c == '.' {
        SegmentFailsAt(cells, y, s, if amount == 0 then x + 1 else x + amount, 0, k - 1);
      } else if c == 'o' || c == 'A' {
        if amount == 0 {
          SegmentFailsAt(cells + [(x, y)], y, s, x + 1, 0, k - 1);
        } else {
          SegmentFailsAt(cells + Run(x, y, amount), y, s, x + amount, 0, k - 1);
        }
      } else {
        SegmentFailsAt(cells, y, s, x, amount * 10 + DigitValue(c), k - 1);
      }
    }
  }

  /** `!` ends the segment successfully, and what follows it is never read. */
  lemma {:induction false} SegmentStopsAt(cells: seq<(int, int)>, y: int, seg: string, x: int, amount: nat, k: nat)
    requires k < |seg| && seg[k] == '!'
    requires forall j :: 0 <= j < k ==> IsRunChar(seg[j])
    ensures Segment(cells, y, seg, x, amount).Stopped?
    ensures Segment(cells, y, seg, x, amount) == Segment(cells, y, seg[..k + 1], x, amount)
    decreases k
  {
    var s, t := seg[1..], seg[..k + 1][1..];
    assert t == s[..k];
    if k > 0 {
      assert forall j :: 0 <= j < k - 1 ==> s[j] == seg[j + 1];
      assert IsRunChar(seg[0]);
      assert s[..k - 1 + 1] == t;
      var c := seg[0];
      if c == 'b' || c == '.' {
        SegmentStopsAt(cells, y, s, if amount == 0 then x + 1 else x + amount, 0, k - 1);
      } else if c == 'o' || c == 'A' {
        if amount == 0 {
          SegmentStopsAt(cells + [(x, y)], y, s, x + 1, 0, k - 1);
        } else {
          SegmentStopsAt(cells + Run(x, y, amount), y, s, x + amount, 0, k - 1);
        }
      } else {
        SegmentStopsAt(cells, y, s, x, amount * 10 + DigitValue(c), k - 1);
      }
    }
  }

  /** A segment of states and digits only runs to its end and hands on its pending count. */
  lemma {:induction false} SegmentFinishes(cells: seq<(int, int)>, y: int, seg: string, x: int, amount: nat)
    requires forall j :: 0 <= j < |seg| ==> IsRunChar(seg[j])
    ensures Segment(cells, y, seg, x, amount).Finished?
    decreases |seg|
  {
    if seg != [] {
      var s := seg[1..];
      assert forall j :: 0 <= j < |s| ==> s[j] == seg[j + 1];
      assert IsRunChar(seg[0]);
      var c := seg[0];
      if c == 'b' || c == '.' {
        SegmentFinishes(cells, y, s, if amount == 0 then x + 1 else x + amount, 0);
      } else if c == 'o' || c == 'A' {
        if amount == 0 {
          SegmentFinishes(cells + [(x, y)], y, s, x + 1, 0);
        } else {
          SegmentFinishes(cells + Run(x, y, amount), y, s, x + amount, 0);
        }
      } else {
        SegmentFinishes(cells, y, s, x, amount * 10 + DigitValue(c));
      }
    }
  }

  /** Digits just before a `$` move down by their count; otherwise one row. */
  lemma RowEnd(p: Pattern, seg: string, rest: seq<string>, y: int)
    requires Segment(p.cells, y, seg, 0, 0).Finished?
    ensures var e := Segment(p.cells, y, seg, 0, 0);
      Body(p, [seg] + rest, y) == Body(p.(cells := e.cells), rest, if e.amount == 0 then y + 1 else y + e.amount)
  {
    assert ([seg] + rest)[0] == seg && ([seg] + rest)[1..] == rest;
  }

  /**
   * A segment of digits only (`$`, `k$`) moves down by its run count and emits
   * nothing: `k` rows for a non-zero count `k`, else one row.
   */
  lemma BlankRows(p: Pattern, d: string, rest: seq<string>, y: int)
    requires AllDigits(d)
    ensures Body(p, [d] + rest, y) == Body(p, rest, y + RunLength(d))
  {
    assert d + [] == d;
    DigitsAccumulate(p.cells, y, d, [], 0, 0);
    RowEnd(p, d, rest, y);
    assert p.(cells := p.cells) == p;
  }

  // ---------------------------------------------------------------------------
  // The body as a whole
  // ---------------------------------------------------------------------------

  /** The body ends early in one of `segments`: at a `!` or at an unexpected character. */
  predicate EndsEarly(p: Pattern, segments: seq<string>, y: int)
    decreases |segments|
  {
    segments != [] &&
      match Segment(p.cells, y, segments[0], 0, 0)
      case Stopped(_) => true
      case Failed(_) => true
      case Finished(cs, amount) => EndsEarly(p.(cells := cs), segments[1..], NextRow(y, amount))
  }

  /** Once the body has ended, nothing after it is read. */
  lemma {:induction false} EndsEarlyIgnoresLater(p: Pattern, segments: seq<string>, y: int, later: seq<string>)
    requires EndsEarly(p, segments, y)
    ensures Body(p, segments + later, y) == Body(p, segments, y)
    decreases |segments|
  {
    var all := segments + later;
    assert all[0] == segments[0] && all[1..] == segments[1..] + later;
    match Segment(p.cells, y, segments[0], 0, 0)
    case Stopped(_) =>
    case Failed(_) =>
    case Finished(cs, amount) =>
      EndsEarlyIgnoresLater(p.(cells := cs), segments[1..], NextRow(y, amount), later);
  }

  /** Without an early end the body succeeds: a missing `!` is no error. */
  lemma {:induction false} BodyWithoutEndSucceeds(p: Pattern, segments: seq<string>, y: int)
    requires !EndsEarly(p, segments, y)
    ensures Body(p, segments, y).Ok?
    decreases |segments|
  {
    if segments != [] {
      match Segment(p.cells, y, segments[0], 0, 0)
      case Finished(cs, amount) =>
        BodyWithoutEndSucceeds(p.(cells := cs), segments[1..], NextRow(y, amount));
    }
  }

  // ---------------------------------------------------------------------------
  // Order of the emitted cells
  // ---------------------------------------------------------------------------

  /** `(x, y)` offsets in reading order: row by row, left to right within a row. */
  predicate Precedes(a: (int, int), b: (int, int))
  {
    a.1 < b.1 || (a.1 == b.1 && a.0 < b.0)
  }

  predicate Ordered(cells: seq<(int, int)>)
  {
    forall i, j :: 0 <= i < j < |cells| ==> Precedes(cells[i], cells[j])
  }

  predicate NonNegative(cells: seq<(int, int)>)
  {
    forall i :: 0 <= i < |cells| ==> cells[i].0 >= 0 && cells[i].1 >= 0
  }

  /** Every cell comes before the cursor `(x, y)`. */
  predicate Before(cells: seq<(int, int)>, x: int, y: int)
  {
    forall i :: 0 <= i < |cells| ==> Precedes(cells[i], (x, y))
  }

  lemma AppendCell(cells: seq<(int, int)>, x: int, y: int)
    requires Ordered(cells) && NonNegative(cells) && Before(cells, x, y) && x >= 0 && y >= 0
    ensures var r := cells + [(x, y)]; Ordered(r) && NonNegative(r) && Before(r, x + 1, y)
  {
  }

  lemma {:induction false} AppendRun(cells: seq<(int, int)>, x: int, y: int, n: nat)
    requires Ordered(cells) && NonNegative(cells) && Before(cells, x, y) && x >= 0 && y >= 0
    ensures var r := cells + Run(x, y, n); Ordered(r) && NonNegative(r) && Before(r, x + n, y)
  {
    if n > 0 {
      AppendRun(cells, x, y, n - 1);
      AppendCell(cells + Run(x, y, n - 1), x + n - 1, y);
      assert cells + Run(x, y, n) == cells + Run(x, y, n - 1) + [(x + n - 1, y)];
    }
  }

  /** Within a segment the column only grows, so each new cell comes after all earlier ones. */
  lemma {:induction false} SegmentOrdered(cells: seq<(int, int)>, y: int, seg: string, x: int, amount: nat)
    requires Ordered(cells) && NonNegative(cells) && Before(cells, x, y) && x >= 0 && y >= 0
    ensures match Segment(cells, y, seg, x, amount)
      case Finished(r, _) => Ordered(r) && NonNegative(r) && Before(r, 0, y + 1)
      case Stopped(r) => Ordered(r) && NonNegative(r)
      case Failed(_) => true
    decreases |seg|
  {
    if seg == [] {
      assert Before(cells, 0, y + 1);
    } else {
      var c, s := seg[0], seg[1..];
      if c == 'b' || c == '.' {
        SegmentOrdered(cells, y, s, if amount == 0 then x + 1 else x + amount, 0);
      } else if c == 'o' || c == 'A' {
        if amount == 0 {
          AppendCell(cells, x, y);
          SegmentOrdered(cells + [(x, y)], y, s, x + 1, 0);
        } else {
          AppendRun(cells, x, y, amount);
          SegmentOrdered(cells + Run(x, y, amount), y, s, x + amount, 0);
        }
      } else if IsDigit(c) {
        SegmentOrdered(cells, y, s, x, amount * 10 + DigitValue(c));
      }
    }
  }

  /** Row after row, the cells stay in reading order and non-negative. */
  lemma {:induction false} BodyOrdered(p: Pattern, segments: seq<string>, y: int)
    requires Ordered(p.cells) && NonNegative(p.cells) && Before(p.cells, 0, y) && y >= 0
    ensures Body(p, segments, y).Ok? ==>
      Ordered(Body(p, segments, y).value.cells) && NonNegative(Body(p, segments, y).value.cells)
    decreases |segments|
  {
    if segments != [] {
      SegmentOrdered(p.cells, y, segments[0], 0, 0);
      match Segment(p.cells, y, segments[0], 0, 0)
      case Stopped(_) =>
      case Failed(_) =>
      case Finished(cs, amount) =>
        var y' := NextRow(y, amount);
        assert Before(cs, 0, y') by {
          forall i | 0 <= i < |cs| ensures Precedes(cs[i], (0, y')) {
            assert Precedes(cs[i], (0, y + 1));
          }
        }
        BodyOrdered(p.(cells := cs), segments[1..], y');
    }
  }

  // ---------------------------------------------------------------------------
  // The stages of the decoder
  // ---------------------------------------------------------------------------

  /** A failing metadata pass fails the whole parse with its error. */
  lemma DecodeMetadataFails(s: string, e: ParseError)
    requires Metadata(EmptyPattern, Lines(s)) == Err(e)
    ensures DecodeRle(s) == Err(e)
  {
  }

  /** The whole parse fails with the directive of the first leading `#` line whose directive is unknown. */
  lemma DecodeFailsAtFirstUnknown(s: string, k: nat)
    requires k < CountComments(Lines(s)) && !KnownDirective(Lines(s)[k])
    requires forall j :: 0 <= j < k ==> KnownDirective(Lines(s)[j])
    ensures DecodeRle(s) == Err(UnknownMetadata(Lines(s)[k][1]))
  {
    MetadataFailsAtFirstUnknown(EmptyPattern, Lines(s), k);
    DecodeMetadataFails(s, UnknownMetadata(Lines(s)[k][1]));
  }

  /** The same on the lines alone. */
  lemma DecodeLinesStages(lines: seq<string>, p: Pattern, area: Option<(usize, usize)>)
    requires Metadata(EmptyPattern, lines) == Ok(p)
    requires CountComments(lines) < |lines| && Header(lines[CountComments(lines)]) == Ok(area)
    ensures DecodeLines(lines) == Body(p.(area := area), Split(Concat(lines[CountComments(lines) + 1..]), '$'), 0)
  {
  }

  /** After the metadata pass and the header, the body decides the result. */
  lemma DecodeStages(s: string, lines: seq<string>, p: Pattern, area: Option<(usize, usize)>)
    requires Lines(s) == lines && Metadata(EmptyPattern, lines) == Ok(p)
    requires CountComments(lines) < |lines| && Header(lines[CountComments(lines)]) == Ok(area)
    ensures DecodeRle(s) == Body(p.(area := area), Split(Concat(lines[CountComments(lines) + 1..]), '$'), 0)
  {
    DecodeLinesStages(lines, p, area);
  }

  /** A decoded pattern lists its live cells strictly in reading order, all at non-negative offsets. */
  lemma DecodeOrdered(s: string)
    requires DecodeRle(s).Ok?
    ensures Ordered(DecodeRle(s).value.cells) && NonNegative(DecodeRle(s).value.cells)
  {
    var lines := Lines(s);
    MetadataKeepsCells(EmptyPattern, lines);
    var p := Metadata(EmptyPattern, lines).value;
    var k := CountComments(lines);
    var area := Header(lines[k]).value;
    BodyOrdered(p.(area := area), Split(Concat(lines[k + 1..]), '$'), 0);
  }
}
