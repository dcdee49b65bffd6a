/**
 * The pattern file support of src/parsers.rs: the file-type dispatch on a
 * file name, the parser's own cell vocabulary, and the decoder of Life RLE
 * patterns (metadata lines, the `x = m, y = n` header and the run-length body).
 */
module Parsers {
  import opened Primitives
  import opened RustStr

  // ---------------------------------------------------------------------------
  // Cells
  // ---------------------------------------------------------------------------

  datatype Cell = Dead(age: usize) | Alive(age: usize)

  /** `From<bool> for Cell`: a fresh cell, alive exactly when the flag is set. */
  function FromBool(value: bool): (c: Cell)
    ensures c.age == 0
    ensures c.Alive? <==> value
  {
    if value then Alive(0) else Dead(0)
  }

  /** `Not for Cell`: the opposite state, fresh. */
  function Not(c: Cell): (r: Cell)
    ensures r.age == 0
    ensures r.Alive? <==> c.Dead?
  {
    match c
    case Dead(_) => Alive(0)
    case Alive(_) => Dead(0)
  }

  /** Negation only looks at the state, and undoes itself up to the age. */
  lemma NotIsInvolution(c: Cell)
    ensures Not(c) == FromBool(!c.Alive?)
    ensures Not(Not(c)) == FromBool(c.Alive?)
  {
  }

  // ---------------------------------------------------------------------------
  // File types
  // ---------------------------------------------------------------------------

  datatype FileType = Life | PlainText | RLE

  /** `FileType::from_filename`: the first matching suffix among lif/life, cells, rle. */
  function FromFilename(s: string): Option<FileType>
  {
    if EndsWith(s, "lif") || EndsWith(s, "life") then Some(Life)
    else if EndsWith(s, "cells") then Some(PlainText)
    else if EndsWith(s, "rle") then Some(RLE)
    else None
  }

  /** Each recognised suffix selects its type, whatever precedes it; no dot is needed. */
  lemma FromFilenameBySuffix(stem: string)
    ensures FromFilename(stem + "lif") == Some(Life)
    ensures FromFilename(stem + "life") == Some(Life)
    ensures FromFilename(stem + "cells") == Some(PlainText)
    ensures FromFilename(stem + "rle") == Some(RLE)
  {
    EndsWithAppended(stem, "lif");
    EndsWithAppended(stem, "life");
    var c, r := stem + "cells", stem + "rle";
    assert c[|c| - 3] == 'l' && c[|c| - 2] == 'l';
    assert r[|r| - 3] == 'r';
    EndsWithAppended(stem, "cells");
    EndsWithAppended(stem, "rle");
  }

  /** The last two characters of a name that ends with `suffix` are those of `suffix`. */
  lemma EndsWithLast(s: string, suffix: string)
    requires |suffix| >= 2 && EndsWith(s, suffix)
    ensures s[|s| - 1] == suffix[|suffix| - 1] && s[|s| - 2] == suffix[|suffix| - 2]
  {
    assert s[|s| - |suffix|..][|suffix| - 1] == s[|s| - 1];
    assert s[|s| - |suffix|..][|suffix| - 2] == s[|s| - 2];
  }

  /**
   * The suffixes exclude each other, so the order of the checks does not matter:
   * each type is reported exactly when the name has its suffix, and none exactly
   * when it has none of them.
   */
  lemma FromFilenameExactly(s: string)
    ensures FromFilename(s) == Some(Life) <==> EndsWith(s, "lif") || EndsWith(s, "life")
    ensures FromFilename(s) == Some(PlainText) <==> EndsWith(s, "cells")
    ensures FromFilename(s) == Some(RLE) <==> EndsWith(s, "rle")
    ensures FromFilename(s).None? <==>
      !EndsWith(s, "lif") && !EndsWith(s, "life") && !EndsWith(s, "cells") && !EndsWith(s, "rle")
  {
    if EndsWith(s, "lif") { EndsWithLast(s, "lif"); }
    if EndsWith(s, "life") { EndsWithLast(s, "life"); }
    if EndsWith(s, "cells") { EndsWithLast(s, "cells"); }
    if EndsWith(s, "rle") { EndsWithLast(s, "rle"); }
  }

  // ---------------------------------------------------------------------------
  // Patterns and errors
  // ---------------------------------------------------------------------------

  /** The decoded pattern: live `(x, y)` offsets plus the optional metadata and declared area. */
  datatype Pattern = Pattern(
    cells: seq<(int, int)>,
    name: Option<string>,
    description: Option<string>,
    author: Option<string>,
    area: Option<(usize, usize)>)

  const EmptyPattern: Pattern := Pattern([], None, None, None, None)

  datatype ParseError =
    | UnknownMetadata(directive: char)
    | MissingHeader
    | HeaderWithoutSeparator
    | InvalidHeaderNumber(text: string)
    | UnexpectedCharacter(c: char)

  // ---------------------------------------------------------------------------
  // Metadata
  // ---------------------------------------------------------------------------

  predicate IsComment(line: string)
  {
    |line| > 0 && line[0] == '#'
  }

  /** How many lines at the front start with `#`. */
  function CountComments(lines: seq<string>): (n: nat)
    ensures n <= |lines|
    ensures forall k :: 0 <= k < n ==> IsComment(lines[k])
    ensures n < |lines| ==> !IsComment(lines[n])
  {
    if lines == [] || !IsComment(lines[0]) then 0 else 1 + CountComments(lines[1..])
  }

  /** One metadata line, by the character after its `#`. */
  function MetaLine(p: Pattern, line: string): Result<Pattern, ParseError>
    requires IsComment(line)
  {
    if |line| == 1 then Ok(p)
    else
      var directive, text := line[1], Trim(line[2..]);
      if directive == 'N' then Ok(if text != [] then p.(name := Some(text)) else p)
      else if directive == 'C' || directive == 'c' then
        Ok(p.(description := Some(if p.description.Some? then p.description.value + "\n" + text else text)))
      else if directive == 'O' then Ok(p.(author := Some(text)))
      else Err(UnknownMetadata(directive))
  }

  /** The metadata pass over the leading `#` lines, stopping at the first unknown directive. */
  function Metadata(p: Pattern, lines: seq<string>): Result<Pattern, ParseError>
    decreases |lines|
  {
    if lines == [] || !IsComment(lines[0]) then Ok(p)
    else
      match MetaLine(p, lines[0])
      case Err(e) => Err(e)
      case Ok(q) => Metadata(q, lines[1..])
  }

  // ---------------------------------------------------------------------------
  // Header
  // ---------------------------------------------------------------------------

  /** The first two fields of `splitn(3, ", ")`, or `None` when there is no second one. */
  function FirstTwoFields(line: string): Option<(string, string)>
  {
    match Find(line, ", ")
    case None => None
    case Some(i) =>
      var rest := line[i + 2..];
      Some((line[..i], match Find(rest, ", ") case None => rest case Some(j) => rest[..j]))
  }

  /** A header field with its key removed (`replace(key, "")`), read as a `usize`. */
  function HeaderNumber(field: string, key: string): Result<usize, ParseError>
    requires |key| > 0
  {
    var text := RemoveAll(field, key);
    match ParseUsize(text)
    case None => Err(InvalidHeaderNumber(text))
    case Some(v) => Ok(v)
  }

  /**
   * The header line: when it mentions both `x = ` and `y = `, its first two
   * fields give the declared area, width first; otherwise there is no area.
   */
  function Header(line: string): Result<Option<(usize, usize)>, ParseError>
  {
    if !(Contains(line, "x = ") && Contains(line, "y = ")) then Ok(None)
    else
      match FirstTwoFields(line)
      case None => Err(HeaderWithoutSeparator)
      case Some((first, second)) =>
        match HeaderNumber(first, "x = ")
        case Err(e) => Err(e)
        case Ok(w) =>
          match HeaderNumber(second, "y = ")
          case Err(e) => Err(e)
          case Ok(h) => Ok(Some((w, h)))
  }

  // ---------------------------------------------------------------------------
  // Body
  // ---------------------------------------------------------------------------

  /** `n` live cells in a row, from `(x, y)` rightwards. */
  function Run(x: int, y: int, n: nat): (r: seq<(int, int)>)
    ensures |r| == n
    ensures forall i :: 0 <= i < n ==> r[i] == (x + i, y)
  {
    seq(n, i requires 0 <= i < n => (x + i, y))
  }

  /** How one `$`-separated row segment ends. */
  datatype SegmentEnd =
    | Finished(cells: seq<(int, int)>, amount: nat)
    | Stopped(cells: seq<(int, int)>)
    | Failed(c: char)

  /**
   * Decoding the rest `seg` of a row segment, with the live cells found so far,
   * the row `y`, the column `x` and the pending run count `amount`.
   */
  function Segment(cells: seq<(int, int)>, y: int, seg: string, x: int, amount: nat): SegmentEnd
    decreases |seg|
  {
    if seg == [] then Finished(cells, amount)
    else
      var c := seg[0];
      if c == 'b' || c == '.' then
        Segment(cells, y, seg[1..], if amount == 0 then x + 1 else x + amount, 0)
      else if c == 'o' || c == 'A' then
        if amount == 0 then Segment(cells + [(x, y)], y, seg[1..], x + 1, 0)
        else Segment(cells + Run(x, y, amount), y, seg[1..], x + amount, 0)
      else if IsDigit(c) then
        Segment(cells, y, seg[1..], x, amount * 10 + DigitValue(c))
      else if c == '!' then Stopped(cells)
      else Failed(c)
  }

  /** The row after a segment: the pending count if non-zero, else the next one. */
  function NextRow(y: int, amount: nat): (r: int)
    ensures r > y
  {
    if amount != 0 then y + amount else y + 1
  }

  /** Decoding the remaining segments from row `y`. */
  function Body(p: Pattern, segments: seq<string>, y: int): Result<Pattern, ParseError>
    decreases |segments|, 1
  {
    if segments == [] then Ok(p)
    else AfterSegment(p, Segment(p.cells, y, segments[0], 0, 0), segments[1..], y)
  }

  /** What happens once a segment has ended the given way. */
  function AfterSegment(p: Pattern, end: SegmentEnd, rest: seq<string>, y: int): Result<Pattern, ParseError>
    decreases |rest| + 1, 0
  {
    match end
    case Stopped(cs) => Ok(p.(cells := cs))
    case Failed(c) => Err(UnexpectedCharacter(c))
    case Finished(cs, amount) => Body(p.(cells := cs), rest, NextRow(y, amount))
  }

  /** The whole decoder, on the text's lines: metadata, header, then body. */
  function DecodeLines(lines: seq<string>): Result<Pattern, ParseError>
  {
    match Metadata(EmptyPattern, lines)
    case Err(e) => Err(e)
    case Ok(p) =>
      var k := CountComments(lines);
      if k == |lines| then Err(MissingHeader)
      else
        match Header(lines[k])
        case Err(e) => Err(e)
        case Ok(area) => Body(p.(area := area), Split(Concat(lines[k + 1..]), '$'), 0)
  }

  /** The whole decoder, stage by stage. */
  function DecodeRle(s: string): Result<Pattern, ParseError>
  {
    DecodeLines(Lines(s))
  }

  // ---------------------------------------------------------------------------
  // The decoder as the source runs it
  // ---------------------------------------------------------------------------

  /**
   * One pass of the body loop of `parse_rle_file` over a row segment, with the
   * column and the pending run count as cursors and the found cells pushed in order.
   */
  method DecodeSegment(cells0: seq<(int, int)>, y: int, segment: string) returns (end: SegmentEnd)
    ensures end == Segment(cells0, y, segment, 0, 0)
  {
    var cells := cells0;
    var amount: nat := 0;
    var x: int := 0;
    for ci := 0 to |segment|
      invariant Segment(cells, y, segment[ci..], x, amount) == Segment(cells0, y, segment, 0, 0)
    {
      var c := segment[ci];
      assert segment[ci..][0] == c && segment[ci..][1..] == segment[ci + 1..];
      if c == 'b' || c == '.' {
        if amount == 0 {
          x := x + 1;
        } else {
          x := x + amount;
          amount := 0;
        }
      } else if c == 'o' || c == 'A' {
        if amount == 0 {
          cells := cells + [(x, y)];
          x := x + 1;
        } else {
          ghost var before := cells;
          for i := 0 to amount
            invariant cells == before + Run(x, y, i)
          {
            assert Run(x, y, i + 1) == Run(x, y, i) + [(x + i, y)];
            cells := cells + [(x + i, y)];
          }
          x := x + amount;
          amount := 0;
        }
      } else if IsDigit(c) {
        amount := amount * 10 + DigitValue(c);
      } else if c == '!' {
        return Stopped(cells);
      } else {
        return Failed(c);
      }
    }
    return Finished(cells, amount);
  }

  /** One turn of the metadata loop: the pass over `lines[k..]` starts with line `k`. */
  lemma MetadataStep(p: Pattern, lines: seq<string>, k: nat)
    requires k < |lines| && IsComment(lines[k])
    ensures Metadata(p, lines[k..])
         == match MetaLine(p, lines[k]) { case Err(e) => Err(e) case Ok(q) => Metadata(q, lines[k + 1..]) }
  {
    assert lines[k..][0] == lines[k] && lines[k..][1..] == lines[k + 1..];
  }

  /** The metadata loop stops exactly at the end of the leading comments. */
  lemma CountCommentsAt(lines: seq<string>, k: nat)
    requires k <= CountComments(lines)
    ensures k < |lines| && IsComment(lines[k]) ==> k + 1 <= CountComments(lines)
    ensures k == |lines| || !IsComment(lines[k]) ==> k == CountComments(lines)
  {
  }

  /** The metadata loop of `parse_rle_file` over the leading `#` lines. */
  method ReadMetadata(lines: seq<string>) returns (r: Result<Pattern, ParseError>, k: nat)
    ensures r == Metadata(EmptyPattern, lines)
    ensures k == CountComments(lines)
  {
    var pattern := EmptyPattern;
    k := 0;
    while k < |lines| && IsComment(lines[k])
      invariant k <= CountComments(lines)
      invariant Metadata(pattern, lines[k..]) == Metadata(EmptyPattern, lines)
    {
      MetadataStep(pattern, lines, k);
      CountCommentsAt(lines, k);
      var step := MetaLine(pattern, lines[k]);
      if step.Err? {
        return Err(step.error), CountComments(lines);
      }
      pattern := step.value;
      k := k + 1;
    }
    CountCommentsAt(lines, k);
    assert lines[k..] == [] || !IsComment(lines[k..][0]);
    r := Ok(pattern);
  }

  /** The body loop of `parse_rle_file`: one row segment after another, from row 0. */
  method ReadBody(start: Pattern, segments: seq<string>) returns (r: Result<Pattern, ParseError>)
    ensures r == Body(start, segments, 0)
  {
    var pattern := start;
    var y: int := 0;
    for si := 0 to |segments|
      invariant Body(pattern, segments[si..], y) == Body(start, segments, 0)
    {
      assert segments[si..][0] == segments[si] && segments[si..][1..] == segments[si + 1..];
      var end := DecodeSegment(pattern.cells, y, segments[si]);
      match end {
        case Stopped(cells) => return Ok(pattern.(cells := cells));
        case Failed(c) => return Err(UnexpectedCharacter(c));
        case Finished(cells, amount) =>
          pattern := pattern.(cells := cells);
          if amount != 0 {
            y := y + amount;
          } else {
            y := y + 1;
          }
      }
    }
    return Ok(pattern);
  }

  /** `parse_rle_file`: the metadata pass, the header and the row-by-row body. */
  method ParseRleFile(s: string) returns (r: Result<Pattern, ParseError>)
    ensures r == DecodeRle(s)
  {
    var lines := Lines(s);
    assert DecodeRle(s) == DecodeLines(lines);
    var metadata, k := ReadMetadata(lines);
    if metadata.Err? {
      return Err(metadata.error);
    }
    if k == |lines| {
      return Err(MissingHeader);
    }
    var header := Header(lines[k]);
    if header.Err? {
      return Err(header.error);
    }
    var pattern := metadata.value.(area := header.value);
    r := ReadBody(pattern, Split(Concat(lines[k + 1..]), '$'));
  }

  // ---------------------------------------------------------------------------
  // Loading a pattern file
  // ---------------------------------------------------------------------------

  datatype LoadError =
    | UnrecognisedFileType
    | NotImplemented(fileType: FileType)
    | Malformed(error: ParseError)

  /**
   * `Pattern::from_file` once the file has been read: the extension selects
   * the decoder; only RLE has one.
   */
  method FromFile(filename: string, contents: string) returns (r: Result<Pattern, LoadError>)
    ensures FromFilename(filename).None? ==> r == Err(UnrecognisedFileType)
    ensures FromFilename(filename) == Some(Life) ==> r == Err(NotImplemented(Life))
    ensures FromFilename(filename) == Some(PlainText) ==> r == Err(NotImplemented(PlainText))
    ensures FromFilename(filename) == Some(RLE) ==>
      r == match DecodeRle(contents) case Ok(p) => Ok(p) case Err(e) => Err(Malformed(e))
  {
    var fileType := FromFilename(filename);
    if fileType.None? {
      return Err(UnrecognisedFileType);
    }
    match fileType.value {
      case Life => r := Err(NotImplemented(Life));
      case PlainText => r := Err(NotImplemented(PlainText));
      case RLE =>
        var parsed := ParseRleFile(contents);
        match parsed {
          case Ok(p) => r := Ok(p);
          case Err(e) => r := Err(Malformed(e));
        }
    }
  }
}
