/**
 * Worked examples of the RLE decoder of src/parsers.rs on whole texts: a
 * glider, input after `!`, each error case, and a file without a header.
 */
module RleExamples {
  import opened Primitives
  import opened RustStr
  import opened Parsers
  import opened RleProperties

  const GliderBody: string := "bo$2bo$3o!"

  /** The live cells of `bo$2bo$3o!`, row by row. */
  const GliderCells: seq<(int, int)> := [(1, 0), (2, 1), (0, 2), (1, 2), (2, 2)]

  const Glider: Pattern := Pattern(GliderCells, Some("Glider"), None, None, Some((3, 3)))

  /** Text without separators joins the first piece of what follows. */
  lemma {:induction false} SplitPrefix(a: string, b: string, sep: char)
    requires sep !in a
    ensures Split(a + b, sep) == [a + Split(b, sep)[0]] + Split(b, sep)[1..]
    decreases |a|
  {
    if a == [] {
      assert a + b == b && a + Split(b, sep)[0] == Split(b, sep)[0];
      assert Split(b, sep) == [Split(b, sep)[0]] + Split(b, sep)[1..];
    } else {
      var s := a + b;
      assert s[0] == a[0] && s[1..] == a[1..] + b;
      SplitPrefix(a[1..], b, sep);
      assert [a[0]] + (a[1..] + Split(b, sep)[0]) == a + Split(b, sep)[0];
    }
  }

  lemma GliderRow0()
    ensures Segment([], 0, "bo", 0, 0) == Finished([(1, 0)], 0)
  {
    assert "bo" == "" + ['b'] + "o" && "o" == "" + ['o'] + "";
    DeadRun([], 0, "", 'b', "o", 0);
    AliveRun([], 0, "", 'o', "", 1);
  }

  lemma GliderRow1()
    ensures Segment([(1, 0)], 1, "2bo", 0, 0) == Finished([(1, 0), (2, 1)], 0)
  {
    assert "2bo" == "2" + ['b'] + "o" && "o" == "" + ['o'] + "";
    assert RunLength("2") == 2;
    DeadRun([(1, 0)], 1, "2", 'b', "o", 0);
    AliveRun([(1, 0)], 1, "", 'o', "", 2);
  }

  /** The last row stops at its `!`, whatever follows in the same segment. */
  lemma GliderRow2(last: string)
    requires |last| >= 3 && last[..3] == "3o!"
    ensures Segment([(1, 0), (2, 1)], 2, last, 0, 0) == Stopped(GliderCells)
  {
    SegmentStopsAt([(1, 0), (2, 1)], 2, last, 0, 0, 2);
    assert "3o!" == "3" + ['o'] + "!";
    assert RunLength("3") == 3;
    AliveRun([(1, 0), (2, 1)], 2, "3", 'o', "!", 0);
    assert [(1, 0), (2, 1)] + Run(0, 2, 3) == GliderCells;
  }

  /** Two separators in front of text without one: three pieces, the last running into what follows. */
  lemma SplitThree(a: string, b: string, c: string, later: string, sep: char)
    requires sep !in a && sep !in b && sep !in c
    ensures Split(a + [sep] + b + [sep] + c + later, sep) == [a, b, c + Split(later, sep)[0]] + Split(later, sep)[1..]
  {
    assert a + [sep] + b + [sep] + c + later == a + [sep] + (b + [sep] + (c + later));
    SplitAroundSeparator(a, b + [sep] + (c + later), sep);
    SplitAroundSeparator(b, c + later, sep);
    SplitPrefix(c, later, sep);
  }

  lemma GliderSegments(later: string)
    ensures Split(GliderBody + later, '$')
      == ["bo", "2bo", "3o!" + Split(later, '$')[0]] + Split(later, '$')[1..]
  {
    var a, b, c := "bo", "2bo", "3o!";
    assert GliderBody == a + ['$'] + b + ['$'] + c;
    assert '$' !in a && '$' !in b && '$' !in c;
    SplitThree(a, b, c, later, '$');
  }

  /** The glider's body, whatever text follows its `!`. */
  lemma GliderBodyDecodes(p: Pattern, later: string)
    requires p.cells == []
    ensures Body(p, Split(GliderBody + later, '$'), 0) == Ok(p.(cells := GliderCells))
  {
    var last := "3o!" + Split(later, '$')[0];
    var more := Split(later, '$')[1..];
    GliderSegments(later);
    var segments := ["bo", "2bo", last] + more;
    assert segments[1..] == ["2bo", last] + more && segments[1..][1..] == [last] + more;
    var p1, p2 := p.(cells := [(1, 0)]), p.(cells := [(1, 0), (2, 1)]);
    assert Body(p2, [last] + more, 2) == Ok(p.(cells := GliderCells)) by {
      assert last[..3] == "3o!";
      GliderRow2(last);
    }
    assert Body(p1, ["2bo", last] + more, 1) == Body(p2, [last] + more, 2) by {
      GliderRow1();
    }
    assert Body(p, segments, 0) == Body(p1, ["2bo", last] + more, 1) by {
      GliderRow0();
    }
  }

  lemma GliderLines(body: string)
    ensures Lines("#N Glider\nx = 3, y = 3\n" + body) == ["#N Glider", "x = 3, y = 3"] + Lines(body)
  {
    var l0, l1 := "#N Glider", "x = 3, y = 3";
    assert "#N Glider\nx = 3, y = 3\n" + body == l0 + "\n" + (l1 + "\n" + body);
    LinesCons(l0, l1 + "\n" + body);
    LinesCons(l1, body);
  }

  /** One leading space in front of a word is trimmed away. */
  lemma TrimLeadingSpace(t: string)
    requires t != [] && !IsWhitespace(t[0]) && !IsWhitespace(t[|t| - 1])
    ensures Trim([' '] + t) == t
  {
    assert ([' '] + t)[1..] == t;
  }

  lemma TrimGlider()
    ensures Trim(" Glider") == "Glider"
  {
    assert " Glider" == [' '] + "Glider";
    TrimLeadingSpace("Glider");
  }

  lemma SquareHeader(n: usize, d: char)
    requires n < 10 && d == Digit(n)
    ensures Header(['x', ' ', '=', ' ', d, ',', ' ', 'y', ' ', '=', ' ', d]) == Ok(Some((n, n)))
  {
    assert ShowNat(n) == [d];
    assert ['x', ' ', '=', ' ', d, ',', ' ', 'y', ' ', '=', ' ', d] == "x = " + ShowNat(n) + ", y = " + ShowNat(n) + "";
    HeaderRoundTrip(n, n, "");
  }

  /** `#N Glider` names the pattern `Glider`. */
  lemma GliderNameLine(line: string)
    requires line == "#N Glider"
    ensures IsComment(line) && MetaLine(EmptyPattern, line) == Ok(EmptyPattern.(name := Some("Glider")))
  {
    assert line[1] == 'N' && line[2..] == " Glider";
    TrimGlider();
  }

  lemma GliderHeaderLine(line: string)
    requires line == "x = 3, y = 3"
    ensures !IsComment(line) && Header(line) == Ok(Some((3, 3)))
  {
    assert line == ['x', ' ', '=', ' ', '3', ',', ' ', 'y', ' ', '=', ' ', '3'];
    SquareHeader(3, '3');
  }

  /** What precedes the body: the name `Glider` and the area 3 by 3. */
  lemma GliderPreamble(lines: seq<string>)
    requires |lines| >= 2 && lines[0] == "#N Glider" && lines[1] == "x = 3, y = 3"
    ensures Metadata(EmptyPattern, lines) == Ok(EmptyPattern.(name := Some("Glider")))
    ensures CountComments(lines) == 1
    ensures Header(lines[1]) == Ok(Some((3, 3)))
  {
    GliderNameLine(lines[0]);
    GliderHeaderLine(lines[1]);
    assert lines[1..][0] == lines[1];
  }

  /** After the glider's comment and header lines, what is left to decode is the body. */
  lemma GliderPreambleDecodes(s: string)
    requires |Lines(s)| >= 2 && Lines(s)[0] == "#N Glider" && Lines(s)[1] == "x = 3, y = 3"
    ensures DecodeRle(s) == Body(EmptyPattern.(name := Some("Glider"), area := Some((3, 3))), Split(Concat(Lines(s)[2..]), '$'), 0)
  {
    GliderPreamble(Lines(s));
    DecodeStages(s, Lines(s), EmptyPattern.(name := Some("Glider")), Some((3, 3)));
  }

  /** Any text whose lines are the glider's, then whatever lines follow, decodes to the glider. */
  lemma GliderLinesDecode(s: string, rest: seq<string>)
    requires |Lines(s)| >= 3 && Lines(s)[0] == "#N Glider" && Lines(s)[1] == "x = 3, y = 3"
    requires Lines(s)[2..] == [GliderBody] + rest
    ensures DecodeRle(s) == Ok(Glider)
  {
    GliderPreambleDecodes(s);
    ConcatCons(GliderBody, rest);
    GliderBodyDecodes(EmptyPattern.(name := Some("Glider"), area := Some((3, 3))), Concat(rest));
  }

  /** `#N Glider`, `x = 3, y = 3`, `bo$2bo$3o!` decodes to the five glider cells. */
  lemma GliderExample()
    ensures DecodeRle("#N Glider\nx = 3, y = 3\n" + GliderBody) == Ok(Glider)
  {
    var s := "#N Glider\nx = 3, y = 3\n" + GliderBody;
    GliderLines(GliderBody);
    LinesSingle(GliderBody);
    assert Lines(s)[2..] == [GliderBody] + [];
    GliderLinesDecode(s, []);
  }

  /** Anything on the lines after the `!` is ignored, errors included. */
  lemma GliderIgnoresLaterInput(later: string)
    ensures DecodeRle("#N Glider\nx = 3, y = 3\n" + GliderBody + "\n" + later) == Ok(Glider)
  {
    var s := "#N Glider\nx = 3, y = 3\n" + GliderBody + "\n" + later;
    assert s == "#N Glider\nx = 3, y = 3\n" + (GliderBody + "\n" + later);
    GliderLines(GliderBody + "\n" + later);
    LinesCons(GliderBody, later);
    assert Lines(s)[2..] == [GliderBody] + Lines(later);
    GliderLinesDecode(s, Lines(later));
  }

  /**
   * Without the `#N` line: any text whose lines are `x = 3, y = 3`, `bo$2bo$3o!` and then
   * anything (such as `x = 3, y = 3\nbo$2bo$3o!`) decodes to the same cells, unnamed.
   */
  lemma PlainGliderLinesDecode(s: string, rest: seq<string>)
    requires |Lines(s)| >= 2 && Lines(s)[0] == "x = 3, y = 3"
    requires Lines(s)[1..] == [GliderBody] + rest
    ensures DecodeRle(s) == Ok(Pattern(GliderCells, None, None, None, Some((3, 3))))
  {
    var lines := Lines(s);
    var p := EmptyPattern.(area := Some((3, 3)));
    assert DecodeRle(s) == Body(p, Split(Concat(lines[1..]), '$'), 0) by {
      GliderHeaderLine(lines[0]);
      assert CountComments(lines) == 0;
      DecodeStages(s, lines, EmptyPattern, Some((3, 3)));
    }
    ConcatCons(GliderBody, rest);
    GliderBodyDecodes(p, Concat(rest));
  }

  /**
   * A first line `#` followed by any character other than `N`, `C`, `c` and `O`
   * fails the parse with that character, whatever follows: `#Zgarbage` fails
   * with `Z`, and `# a comment` with the space, so it is not a comment.
   */
  lemma UnknownDirectiveFails(c: char, text: string, rest: string)
    requires c != 'N' && c != 'C' && c != 'c' && c != 'O'
    requires c != '\n' && c != '\r' && '\n' !in text
    ensures DecodeRle("#" + [c] + text + "\n" + rest) == Err(UnknownMetadata(c))
  {
    var line := "#" + [c] + text;
    var s := "#" + [c] + text + "\n" + rest;
    assert '\n' !in line by {
      assert forall k :: 0 <= k < |line| ==> line[k] == if k == 0 then '#' else if k == 1 then c else text[k - 2];
    }
    var first := StripCarriageReturn(line);
    assert first[0] == '#' && first[1] == c;
    assert Lines(s) == [first] + Lines(rest) by {
      assert line + "\n" + rest == s;
      LinesCons(line, rest);
    }
    assert ([first] + Lines(rest))[0] == first;
    MetadataFailsAtFirstUnknown(EmptyPattern, [first] + Lines(rest), 0);
    DecodeMetadataFails(s, UnknownMetadata(c));
  }

  /** A text of `#` lines only has no header, whatever they say. */
  lemma OnlyCommentsHaveNoHeader(s: string)
    requires Metadata(EmptyPattern, Lines(s)).Ok?
    requires forall k :: 0 <= k < |Lines(s)| ==> IsComment(Lines(s)[k])
    ensures DecodeRle(s) == Err(MissingHeader)
  {
  }

  /** Only `#` lines (here a bare `#`, which is ignored): there is no header. */
  lemma MissingHeaderExample()
    ensures DecodeRle("#\n") == Err(MissingHeader)
  {
    assert Lines("#\n") == ["#"] by {
      assert "#\n" == "#" + "\n" + "";
      LinesCons("#", "");
      LinesSingle("");
    }
    OnlyCommentsHaveNoHeader("#\n");
  }

  /** An empty text has no header either. */
  lemma EmptyTextExample()
    ensures DecodeRle("") == Err(MissingHeader)
  {
    LinesSingle("");
    OnlyCommentsHaveNoHeader("");
  }

  lemma UnitHeaderLine(line: string)
    requires line == "x = 1, y = 1"
    ensures !IsComment(line) && Header(line) == Ok(Some((1, 1)))
  {
    assert line == ['x', ' ', '=', ' ', '1', ',', ' ', 'y', ' ', '=', ' ', '1'];
    SquareHeader(1, '1');
  }

  /** A row segment starting `o ` fails at its space, the second character. */
  lemma SpacedRowFails(body: string, more: string)
    requires body == "o o!"
    ensures Segment([], 0, Split(body + more, '$')[0], 0, 0) == Failed(' ')
  {
    assert '$' !in body;
    SplitPrefix(body, more, '$');
    var seg := Split(body + more, '$')[0];
    assert seg == body + Split(more, '$')[0];
    assert IsRunChar(seg[0]) && seg[1] == ' ';
    SegmentFailsAt([], 0, seg, 0, 0, 1);
  }

  /** A text whose lines are `x = 1, y = 1`, `o o!` and then anything fails at the space. */
  lemma SpacedBodyFails(s: string, rest: seq<string>)
    requires |Lines(s)| >= 2 && Lines(s)[0] == "x = 1, y = 1" && Lines(s)[1] == "o o!"
    requires Lines(s)[2..] == rest
    ensures DecodeRle(s) == Err(UnexpectedCharacter(' '))
  {
    var lines := Lines(s);
    var segments := Split(Concat(lines[1..]), '$');
    var p := EmptyPattern.(area := Some((1, 1)));
    assert DecodeRle(s) == Body(p, segments, 0) by {
      UnitHeaderLine(lines[0]);
      assert CountComments(lines) == 0;
      DecodeStages(s, lines, EmptyPattern, Some((1, 1)));
    }
    assert Segment([], 0, segments[0], 0, 0) == Failed(' ') by {
      assert lines[1..] == [lines[1]] + rest;
      ConcatCons(lines[1], rest);
      SpacedRowFails(lines[1], Concat(rest));
    }
    assert Body(p, segments, 0) == AfterSegment(p, Segment([], 0, segments[0], 0, 0), segments[1..], 0);
  }

  /** A space in the body is an unexpected character, whatever lines follow. */
  lemma UnexpectedCharacterExample(later: string)
    ensures DecodeRle("x = 1, y = 1\no o!\n" + later) == Err(UnexpectedCharacter(' '))
  {
    var s, header, body := "x = 1, y = 1\no o!\n" + later, "x = 1, y = 1", "o o!";
    assert s == header + "\n" + (body + "\n" + later);
    LinesCons(header, body + "\n" + later);
    LinesCons(body, later);
    assert Lines(s)[2..] == Lines(later);
    SpacedBodyFails(s, Lines(later));
  }

  /**
   * The first line after the `#` lines is always taken as the header, even when it
   * holds cells: a one-line text without an `x` (such as `3o!`) decodes to no cells.
   */
  lemma HeaderLineIsConsumed(line: string)
    requires line != [] && line[0] != '#' && '\n' !in line && 'x' !in line
    ensures DecodeRle(line) == Ok(EmptyPattern)
  {
    assert Lines(line) == [line] by {
      LinesSingle(line);
    }
    assert Header(line) == Ok(None) by {
      FindSkipsPrefix(line, "", "x = ");
      assert line + "" == line;
    }
    DecodeStages(line, [line], EmptyPattern, None);
    assert Split(Concat([line][1..]), '$') == [[]];
    assert Body(EmptyPattern, [[]], 0) == Ok(EmptyPattern) by {
      assert Segment(EmptyPattern.cells, 0, [], 0, 0) == Finished(EmptyPattern.cells, 0);
    }
  }
}
