# Terminal Game of Life: the engine and the RLE decoder, in Dafny

This project models two parts of a terminal Game of Life application. Each
part is stated as code and proved against a specification.

- **The automaton engine** (`src/components/universe.rs`). A `Universe` holds a
  `width` by `height` toroidal grid of cells, stored row-major. Each cell is
  `Dead(age)` or `Alive(age)`.
  - `tick` clones the grid into a buffer `next`. It then visits every cell,
    counts its live neighbours with wrap-around, applies Conway's B3/S23 rule
    with saturating age bookkeeping, and installs `next`.
  - `init` sizes the grid from a terminal area, two grid rows per terminal row,
    and seeds every cell at age 0.
  - `update` dispatches `Tick` and `Resize`.
  - The 16-case table that `draw` uses to pack two cells into one terminal
    character is modelled as a pure function.
- **The pattern decoder** (`src/parsers.rs`). `parse_rle_file` turns the text of
  a Life RLE file into a `Pattern`. A `Pattern` is a list of live `(x, y)`
  offsets, plus an optional name, description, author and declared area. The
  text is decoded in three stages:
  - the leading `#` metadata lines;
  - the `x = m, y = n` header;
  - the `$`-separated run-length body, which stops at `!`.

  The small helpers `FileType::from_filename`, `From<bool> for Cell` and
  `Not for Cell` are modelled too, and so is the extension dispatch of
  `Pattern::from_file`.

Modules:

- `Primitives` (`primitives.dfy`): the `usize` and `u16` ranges, a saturating
  increment, and `Option` and `Result`.
- `RustStr` (`rust_str.dfy`): the Rust string operations the decoder relies on.
  These are `lines`, `split`, `contains`, `replace(key, "")`, `trim` and
  `parse::<usize>`. Each is defined once, with the lemmas the decoder's proofs
  need, such as split/join round trips and number printing and parsing.
- `Universe` (`universe.dfy`): the engine.
  - The rule and the neighbour count are specification functions.
    `Universe.NextGeneration` is the whole next grid as a function of the
    previous one.
  - The class `Universe` has the fields `width`, `height` and `cells`. Its
    methods `Tick`, `LiveNeighborCount`, `Init` and `Update` are proved against
    those functions. `Tick` writes an `array` clone in place, as the source does.
- `Parsers` (`parsers.dfy`): the decoder.
  - `DecodeRle` is the specification, built from `Metadata`, `Header`,
    `Segment` and `Body`.
  - `ParseRleFile` is the imperative decoder, with its cursors `x`, `y` and
    `amount`, its early returns and the pushes onto the cell list. Its contract
    is `r == DecodeRle(s)`. It is split into `ReadMetadata`, `DecodeSegment`
    and `ReadBody`, one loop each.
- `RleProperties` (`rle_properties.dfy`): what the decoder guarantees.
  - The meaning of each metadata field.
  - The header round trip.
  - The per-token behaviour of a row segment.
  - How and where the body ends.
  - The reading-order invariant of the decoded cells.
- `RleExamples` (`rle_examples.dfy`): worked decodings. These cover the glider,
  input after `!`, each error case, and a first line that is not a header.

Notes on what the code does:

- The code has no `set_cell`, no pattern stamping or centring, and no bounds
  error. `init` always seeds at random. None of these appear here.
- RLE comment lines must use a known directive. `# text` (with a space) and
  `#Z…` fail the parse. A `#` line after the header is read as body text, so
  it fails at the `#` unless a `!` comes before it. The body
  rejects every character outside `b . o A 0-9 !`.
- A grid of width or height 0 is not rejected by `init`. `tick` on it visits no
  cell, so the model allows it. `live_neighbor_count` needs `width, height >= 1`,
  because `self.height - 1` underflows otherwise.

## Model

| member | source | states |
|---|---|---|
| Universe.NextCell | src/components/universe.rs:39-55 | The next cell is alive exactly when a live cell has 2 or 3 live neighbours or a dead cell has exactly 3. Its age is 0 exactly when the state flipped. Otherwise the age is the old age plus one, saturating at `usize::MAX`. The fifth arm, `Alive(i), _`, is modelled and proved unreachable. |
| Universe.AliveBit | src/components/universe.rs:79-82 | A cell contributes 1 to a count exactly when it is alive, and never more than 1. |
| Universe.GetIndexInBounds | src/components/universe.rs:64-66 | `row * width + col < width * height` whenever `row < height` and `col < width`. |
| Universe.GetIndexInverse | src/components/universe.rs:64-66 | The row and column are recovered from the index by `/ width` and `% width`, so distinct cells have distinct indices. |
| Universe.NeighborCount | src/components/universe.rs:68-86 | The count over the offsets `{h-1, 0, 1} × {w-1, 0, 1}` minus `(0, 0)`, each wrapped with `%`, is never more than 8. |
| Universe.NeighborCountIsMoore | src/components/universe.rs:68-86 | On a torus at least 2 by 2, the offset loop counts exactly the live cells among the 8 Moore neighbours. `MooreCount` is the reference definition, with coordinates `row ± 1` and `col ± 1` wrapped. |
| Universe.CornerWrapsAround | src/components/universe.rs:70-77 | A live cell at `(0, 0)` is counted as a neighbour of `(height-1, width-1)`, `(height-1, 0)` and `(0, width-1)`. |
| Universe.NextGeneration | src/components/universe.rs:30-62 | The next generation has the shape of the previous one. It is defined cell by cell from the unmodified previous generation. |
| Universe.NextGenerationAt | src/components/universe.rs:35-57 | The cell at `(row, col)` of the next generation is the rule applied to the old cell and to its neighbour count in the old grid. |
| Universe.NextGenerationRule | src/components/universe.rs:39-55 | For every cell of every grid: a live cell with fewer than 2 or more than 3 neighbours becomes `Dead(0)`, with 2 or 3 it becomes `Alive(age+1)`, saturating. A dead cell with 3 becomes `Alive(0)`, otherwise `Dead(age+1)`, saturating. |
| Universe.AgeResetsExactlyOnFlip | src/components/universe.rs:39-55 | After a generation, a cell's age is 0 exactly when its state changed. Otherwise it is the saturating successor of the old age, which is never 0. |
| Universe.DeadGridStaysDead | src/components/universe.rs:30-62 | A grid with no live cell has no live cell in the next generation. Every cell stays dead and ages by one. |
| Universe.Glyph | src/components/universe.rs:128-176 | A live top cell gives `▀`. A dead top over a live bottom gives `▄`. Two dead cells give a blank. The foreground and background colours come from the live cells. A live cell is drawn young exactly when its age is 0. |
| Universe.Seeded | src/components/universe.rs:94 | A seeded cell has age 0 and is alive exactly when the random draw is true. |
| Universe.Universe.constructor | src/components/universe.rs:16-28 | `Universe::new` is the derived default: a 0 by 0 grid with no cells. |
| Universe.Universe.LiveNeighborCount | src/components/universe.rs:68-86 | The accumulating loop over the row and column offsets returns `NeighborCount` of the current grid, which is at most 8. |
| Universe.Universe.TickRow | src/components/universe.rs:34-58 | One pass of the column loop writes the cells of one row of `next` from the unmodified `cells`, and no other element of `next`. |
| Universe.Universe.Tick | src/components/universe.rs:30-62 | `tick` keeps `width` and `height`, and replaces `cells` by `NextGeneration` of the old cells. |
| Universe.Universe.Init | src/components/universe.rs:90-98 | `init` sets `width` to the area's width and `height` to twice its height. It leaves `width * height` cells, each one `Seeded` from the coin for its index, so each has age 0. |
| Universe.Universe.Update | src/components/universe.rs:110-117 | `Tick` runs `tick`, `Resize(w, h)` re-runs `init` on `w, h`, and any other action changes nothing. The reply is always `None`. |
| Parsers.FromBool | src/parsers.rs:12-20 | A cell made from a flag is fresh (age 0) and alive exactly when the flag is set. |
| Parsers.Not | src/parsers.rs:22-31 | Negation gives the opposite state, fresh. |
| Parsers.NotIsInvolution | src/parsers.rs:22-31 | Negation depends only on the state, and applying it twice restores the state with age 0. |
| Parsers.FromFilenameBySuffix | src/parsers.rs:51-61 | Any name ending in `lif` or `life` is `Life`, `cells` is `PlainText`, and `rle` is `RLE`. No dot is needed. |
| Parsers.FromFilenameExactly | src/parsers.rs:51-61 | For every name: `Life` exactly when it ends in `lif` or `life`, `PlainText` exactly when it ends in `cells`, `RLE` exactly when it ends in `rle`, and no type exactly when it ends in none of them. The suffixes exclude each other, so the order of the checks does not matter. |
| Parsers.CountComments | src/parsers.rs:139 | The lines before the count all start with `#`, and the line at the count (if any) does not. |
| Parsers.Run | src/parsers.rs:189-191 | A run of `n` pushes yields exactly `n` cells, `(x + i, y)` for `i < n`. |
| Parsers.NextRow | src/parsers.rs:218-222 | The row after a segment is always further down. |
| Parsers.DecodeSegment | src/parsers.rs:168-217 | The character loop over one segment computes `Segment` from the cursors `x = 0` and `amount = 0`. That covers the cells it pushes, how it ended (`!`, an unexpected character or the end of the segment), and the count still pending. |
| Parsers.ReadMetadata | src/parsers.rs:101-139 | The loop over the leading `#` lines computes `Metadata` and stops after exactly `CountComments` lines. |
| Parsers.ReadBody | src/parsers.rs:163-225 | The loop over the `$`-segments from row 0 computes `Body`. |
| Parsers.ParseRleFile | src/parsers.rs:97-226 | `parse_rle_file` returns exactly `DecodeRle` of its text, errors included. |
| Parsers.FromFile | src/parsers.rs:74-94 | An unrecognised extension, `Life` and `PlainText` give their own errors, and `RLE` gives the decoder's result with its error wrapped. |
| RleProperties.MetadataSucceeds | src/parsers.rs:104-135 | The metadata pass succeeds exactly when every leading `#` line is a bare `#` or has directive `N`, `C`, `c` or `O`. |
| RleProperties.MetadataFailsAtFirstUnknown | src/parsers.rs:131-133 | It fails with the directive of the first leading `#` line whose directive is unknown. |
| RleProperties.DecodeFailsAtFirstUnknown | src/parsers.rs:102-133 | The whole parse fails with the directive of the first leading `#` line of the text whose directive is unknown. |
| RleProperties.MetadataKeepsCells | src/parsers.rs:101-136 | The metadata pass leaves the cells and the area as they were. |
| RleProperties.MetadataName | src/parsers.rs:107-114 | After the pass, the name is the last non-empty trimmed `#N` text, or unchanged if there is none. |
| RleProperties.MetadataAuthor | src/parsers.rs:125-130 | The author is the last trimmed `#O` text, an empty one included, or unchanged if there is none. |
| RleProperties.MetadataDescription | src/parsers.rs:115-124 | The description is every trimmed `#C`/`#c` text in order, joined by `\n` onto any earlier description. |
| RleProperties.FieldsAround | src/parsers.rs:145-147 | `splitn(3, ", ")` of two comma-free fields, followed by nothing or by `, …`, yields those two fields. |
| RleProperties.FieldsOfHeader | src/parsers.rs:145-147 | The first two fields of `x = d, y = e…` are `x = d` and `y = e`. |
| RleProperties.HeaderNumberOf | src/parsers.rs:149-150 | A field made of its key and then the decimal form of `n` reads back as `n`. |
| RleProperties.HeaderRoundTrip | src/parsers.rs:142-152 | The header `x = m, y = n`, with or without further `, `-fields, declares the area `(m, n)` for every `m, n` in range. |
| RleProperties.HeaderFields | src/parsers.rs:144-147 | `x = a, y = b` with comma-free `a` and `b` mentions both keys, and `splitn(3, ", ")` gives it the fields `x = a` and `y = b`. |
| RleProperties.HeaderWidthInvalid | src/parsers.rs:149 | A width text `t` without `,` or `x` that `parse::<usize>` rejects (empty, not decimal or too large) fails the header `x = t, y = n` with `InvalidHeaderNumber(t)`, for every `usize` `n`. |
| RleProperties.HeaderHeightInvalid | src/parsers.rs:149-150 | After any valid width `m`, a height text `t` without `,` or `y` that `parse::<usize>` rejects fails the header `x = m, y = t` with `InvalidHeaderNumber(t)`. |
| RleProperties.SeparatorRequired | src/parsers.rs:145-147 | For all digit strings `m, n`, `x = m,y = n` (a comma without the space) contains no `, ` and so has no second field. |
| RleProperties.HeaderNeedsSeparator | src/parsers.rs:144-147 | `x = m,y = n` mentions both keys but has no `, `, so for all digit strings `m, n` it is rejected with `HeaderWithoutSeparator`. The source indexes `v[1]` here and panics. |
| RleProperties.RunLength | src/parsers.rs:184-192 | The run length of a digit prefix is at least 1, and it is the digits' value when that is non-zero. |
| RleProperties.DigitsAccumulate | src/parsers.rs:196-205 | Digits fold into the pending count as `amount * 10 + d`, and nothing else changes. |
| RleProperties.AliveRun | src/parsers.rs:182-195 | `k o` (or `k A`) emits exactly `(x, y) … (x+k-1, y)`, moves `x` by `k` and clears the count. A bare `o` emits `(x, y)` and moves by 1. |
| RleProperties.DeadRun | src/parsers.rs:172-181 | `k b` (or `k .`) emits nothing and moves `x` by `max(k, 1)`. |
| RleProperties.SegmentFailsAt | src/parsers.rs:210-215 | The first character outside `b . o A 0-9 !` fails the segment, naming that character. |
| RleProperties.SegmentStopsAt | src/parsers.rs:206-209 | `!` ends the segment successfully, and nothing after it is read. |
| RleProperties.SegmentFinishes | src/parsers.rs:170-217 | A segment of states and digits only runs to its end. |
| RleProperties.BlankRows | src/parsers.rs:196-222 | A segment of digits only (`$`, `k$`) emits nothing and moves the body down by its run count: `k` rows for a non-zero `k`, else one row. |
| RleProperties.EndsEarlyIgnoresLater | src/parsers.rs:206-215 | Once the body has ended at `!` or at an error, later segments do not change the result. |
| RleProperties.BodyWithoutEndSucceeds | src/parsers.rs:166-225 | Without an early end, the body succeeds: a missing `!` is no error. |
| RleProperties.SegmentOrdered | src/parsers.rs:170-217 | Within a segment the column only grows, so the cells stay in reading order, all at non-negative offsets and before the cursor. |
| RleProperties.BodyOrdered | src/parsers.rs:166-223 | Row after row, the decoded cells stay in reading order and non-negative. |
| RleProperties.DecodeOrdered | src/parsers.rs:97-226 | Every decoded pattern lists its cells strictly increasing in `(y, x)` order, with `x, y >= 0`. |
| RleExamples.GliderBodyDecodes | src/parsers.rs:163-225 | `bo$2bo$3o!` decodes to `(1,0), (2,1), (0,2), (1,2), (2,2)`, whatever follows the `!`. |
| RleExamples.GliderPreamble | src/parsers.rs:101-152 | `#N Glider` and then `x = 3, y = 3` give the name `Glider` and the area 3 by 3. |
| RleExamples.GliderLinesDecode | src/parsers.rs:97-226 | Any text whose lines are `#N Glider`, `x = 3, y = 3`, `bo$2bo$3o!` and then anything decodes to the glider. |
| RleExamples.GliderExample | src/parsers.rs:97-226 | `#N Glider\nx = 3, y = 3\nbo$2bo$3o!` decodes to the named glider with its five cells and area. |
| RleExamples.GliderIgnoresLaterInput | src/parsers.rs:206-209 | Any text at all on the lines after the glider's `!` (errors included) leaves the result unchanged. |
| RleExamples.PlainGliderLinesDecode | src/parsers.rs:142-225 | Without the `#N` line, `x = 3, y = 3` then `bo$2bo$3o!` decodes to the same cells with no name. |
| RleExamples.UnknownDirectiveFails | src/parsers.rs:104-133 | A first line made of `#`, any character other than `N`, `C`, `c` or `O`, and more text fails the parse with that character, whatever follows. So `#Zgarbage` fails with `Z`, and `# a comment` is no comment: it fails with the space. |
| RleExamples.OnlyCommentsHaveNoHeader | src/parsers.rs:154-158 | A text with only `#` lines (all of them accepted) fails for want of a header. |
| RleExamples.MissingHeaderExample | src/parsers.rs:154-158 | `#\n` has no header: the bare `#` is skipped and no line remains. |
| RleExamples.EmptyTextExample | src/parsers.rs:154-158 | The empty text has no header. |
| RleExamples.SpacedBodyFails | src/parsers.rs:210-215 | A body line `o o!` after a valid header fails at the space. |
| RleExamples.UnexpectedCharacterExample | src/parsers.rs:210-215 | `x = 1, y = 1\no o!\n`, followed by anything, fails with the unexpected character ` `. |
| RleExamples.HeaderLineIsConsumed | src/parsers.rs:142-163 | A one-line text that does not start with `#` and has no `x` is consumed as the header, cells included, and declares no area. It therefore decodes to the empty pattern, as `3o!` does. |
| RustStr.Trim | src/parsers.rs:110 | `trim` cuts only whitespace: the text is some whitespace, then the result, then some whitespace. The result neither starts nor ends with whitespace. |
| RustStr.JoinSplit | src/parsers.rs:164 | Joining the pieces of `split(sep)` with `sep` gives back the text. |
| RustStr.SplitJoin | src/parsers.rs:164 | Splitting a join of separator-free pieces gives back the pieces. |
| RustStr.LinesCons | src/parsers.rs:102 | `lines` of `a\nb` is `a`, without a final `\r`, followed by the lines of `b`. |
| RustStr.FindFound | src/parsers.rs:144-145 | A position that `find` reports is an occurrence of the pattern. |
| RustStr.FindFirst | src/parsers.rs:144-145 | `find` misses no occurrence: it reports the given one or an earlier one. |
| RustStr.RemoveAllAbsent | src/parsers.rs:149-150 | `replace(key, "")` on text without the key's first character changes nothing. |
| RustStr.ParseShowNat | src/parsers.rs:149-150 | `parse::<usize>` reads back the decimal form of every `usize`. |

## Left out

- Terminal drawing is not modelled: ratatui's `Frame`, `Style`, `Color` and the
  `Grid` widget. The `chunks`/`tuples`/`zip` row pairing in `draw` is left out
  too. Only the 16-case glyph table is modelled, over an abstract colour type,
  because the rest is presentation.
- The action channel (`command_tx`, `register_action_handler`) and the
  configuration (`register_config_handler`) are left out. They only store
  handles and take part in no computation.
- Random seeding is not modelled. `rand::random` in `init` becomes the parameter
  `coin: nat -> bool`, which gives the draw for each cell index.
- Universe.Universe.Update: `Rect::new` is not modelled. It clips areas whose
  size overflows `u16`, and the model passes `Resize(w, h)` to `init` unchanged.
- Universe.NeighborCountIsMoore: stated for grids at least 2 by 2 only. On a
  1-wide or 1-high torus the offset `n - 1` is 0, so the source skips a second
  pair as though it were the cell itself. `NeighborCount` still models that case
  as written.
- The `v[1]` index at `src/parsers.rs:147` panics when the header has no `, `.
  The model turns that panic into the error `HeaderWithoutSeparator`.
- File I/O is left out of `Pattern::from_file`: the model receives the name and
  the contents. Its panics are modelled as `LoadError` values. An unknown
  extension (`expect`) is one, and the Life and PlainText decoders (`todo!()`)
  are others. No decoder for those formats exists in the source.
- The `eyre` error messages, `log::info!` and the `Display` impl for `Cell` are
  left out. Errors are the `ParseError` variants, each carrying the character or
  text it names.
- Parsers.ParseRleFile: `amount`, `x` and `y` are `isize` in the source. The
  model uses mathematical integers and does not model overflow on huge run
  counts.
- RustStr.Lines: `\n` splits lines. A `\r` directly before a `\n` is dropped, and
  a final unterminated line keeps its `\r`.
- RustStr.IsWhitespace follows the Unicode White_Space property, as `trim`
  does.
- The code has no step that places a `Pattern` on the grid. The engine and the
  decoder are therefore not connected.
- No multi-generation example on a concrete grid, such as a blinker's period 2,
  is proved. The rule is proved for every cell of every grid instead.
