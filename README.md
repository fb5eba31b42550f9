# Name badge generator — a verified model of its layout and recolouring rules

This project models, in Dafny, the decision logic of a small Python tool that
prints event name badges and of its companion script that merges PDF files:

- **create.py** draws two 4.25in × 6in badges per Letter page. Each badge shows
  a fixed two-line title, the attendee's name at the largest font size (28 down)
  that fits 0.9 of the badge width, and a logo picked at random from a folder.
  A vector (SVG) logo is turned to greyscale, inverted when the result is
  "mostly white" (mean fill luminance above 0.7), and scaled uniformly into a
  0.7·width × 0.3·height box one inch above the badge bottom.
- **merge_into_one_big_pdf.py** appends every `.pdf` file of a folder (other
  than the output file), in ascending name order, to one merged document.

Modules, one per concern:

| file | module | what it holds |
|---|---|---|
| wrappers.dfy | `Wrappers` | `Option`, `Result` and the two Python exceptions the code can raise on its own inputs |
| strings.dfy | `Strings` | `str.endswith`, ASCII `str.lower`, `posixpath.join` of two parts, Python's string order |
| shapes.dfy | `ShapeTree` | the shape tree, greyscale, invert, the mostly-white test, and the traversals as methods |
| layout.dfy | `Geometry` | page and badge constants, fit scaling, the badge layout, the name font-size loop |
| logo.dfy | `Logo` | the logo-file filter and the vector branch of `process_logo` |
| batch.dfy | `Badges` | the row loop of `create_badges`: logo choice and processing, page starts, cut guides, slot positions |
| merge.dfy | `PdfMerge` | file selection, the in-place sort, the merger object, command-line defaults |

A drawing is a tree of `Shape` values (`Leaf` or `Group`), each with an optional
fill and an optional stroke colour; `None` stands for both a missing attribute
and a `None` colour. Colour channels, luminance and geometry are `real`. The
canvas is recorded as a sequence of events: `NewPage` (with its two cut guides)
and `PlaceBadge(name, x, y, logo)`.

Behaviour of the code worth knowing:

- Slot 1 is at (badge width, 0), the bottom-right of the page.
- The horizontal cut guide spans the whole page width. It runs along the bottom
  edge of slot 0 but also crosses slot 1, one inch below its top and below both
  of its title lines (`Badges.SlotGeometry`).
- The font-size search has no lower clamp: a name too wide even at size 1 ends
  at size 0 (`Geometry.NoLowerClamp`).
- The row index counts empty CSV rows too, so an empty row shifts every later
  badge by one slot. After an empty first attendee row, the next name lands in
  slot 1 with no page started for it (`Badges.EmptyRowExample`). When no row is
  empty, n attendees start n/2 rounded up pages (`Badges.PlanPageCount`).
- `process_logo` runs for every badge, so a vector logo whose drawing has a zero
  width or height ends the whole run with ZeroDivisionError
  (`Badges.RowsOutcomeCases`).
- A vector logo is drawn from the bottom-left corner of the logo box, so it is
  horizontally centred only when its scaled width fills the box
  (`Logo.SvgLogoPlacement`).

## Model

| member | source | states |
|---|---|---|
| `ShapeTree.IsMostlyWhite` | create.py:16-34 | returns exactly `MostlyWhite`: false with no fill, else mean fill luminance strictly above 0.7 |
| `ShapeTree.CalculateLuminance` | create.py:20-30 | adds the luminance of every present fill, at every depth, to the running total and their number to the count |
| `ShapeTree.MostlyWhiteUniform` | create.py:16-34 | no fill gives false; when all fills share one colour the test is that colour's luminance above 0.7; all-white fills give true, all-black fills false |
| `ShapeTree.StrokesIgnored` | create.py:20-27 | replacing every stroke colour, at every depth, never changes the mostly-white test |
| `ShapeTree.InvertSvg` | create.py:36-51 | the visited tree is `Invert` of the input |
| `ShapeTree.InvertColours` | create.py:36-48 | invert keeps the tree and which colours are present, maps each present fill and stroke c to 1−c channel-wise, and keeps grey colours grey |
| `ShapeTree.InvertInvolution` | create.py:36-51 | inverting twice gives back the original tree, exactly |
| `ShapeTree.InvertFlipsMean` | create.py:36-51 | inversion keeps the number of fills and turns the mean fill luminance m into 1−m |
| `ShapeTree.RecolourTree` | create.py:58-67 | visiting a shape recolours its present fill and stroke and then each child in order; the result is `Recolour(s, f)` |
| `ShapeTree.ConvertToGreyscale` | create.py:58-69 | the visited tree is `Greyscale` of the input |
| `ShapeTree.GreyscaleColours` | create.py:58-64 | greyscale keeps the tree and which colours are present, replaces each present colour by the grey of its channel mean, and leaves every colour grey |
| `ShapeTree.GreyscaleIdempotent` | create.py:58-67 | greyscaling twice equals greyscaling once |
| `ShapeTree.GreyscaleFixedPoints` | create.py:58-67 | greyscale leaves a tree unchanged exactly when all its colours are already grey |
| `ShapeTree.NormalizeResult` | create.py:69-72 | the treated logo keeps the tree, is all grey, and is never mostly white |
| `ShapeTree.NormalizeInvertsIff` | create.py:69-72 | the greyscaled tree is inverted exactly when it is mostly white, and otherwise left as greyscaled |
| `ShapeTree.RecolourFixed` | create.py:58-67 | recolouring with a map that fixes every present colour changes nothing |
| `ShapeTree.RecolourKeepsShape` | create.py:58-67 | recolouring keeps the tree and the presence or absence of every colour |
| `Geometry.FitScale` | create.py:74-76 | the scale is an error (ZeroDivisionError) exactly when the drawing's width or height is zero |
| `Geometry.FitScaleFits` | create.py:74-78 | for positive sizes the one scale used on both axes keeps the drawing within the target, meets it on at least one axis, and is the largest factor that fits |
| `Geometry.LayoutOrdered` | create.py:105-131 | the logo box is 0.7·width × 0.3·height, centred on the badge, inside it, with its bottom one inch above the badge bottom; above it come the name baseline and the two title lines |
| `Geometry.NameFontSize` | create.py:113-119 | the size is at most 28, the name fits 0.9 of the width at it, and every larger size up to 28 was too wide |
| `Geometry.NameFitsDownward` | create.py:113-119 | with a width linear in the size, every size below a fitting one fits, so the loop's result is the largest fitting size up to 28 |
| `Geometry.NoLowerClamp` | create.py:113-119 | for a name too wide at size 1, the size the search stops at (fitting, every larger size up to 28 too wide) is exactly 0 |
| `Logo.ProcessSvgLogo` | create.py:53-79 | fails exactly on a zero width or height; otherwise returns the normalised tree scaled by the fit scale on both axes |
| `Logo.SvgLogoPlacement` | create.py:124-131 | the scaled vector logo lies inside the logo box and the badge with its aspect ratio kept, and is centred only when it fills the box width |
| `Logo.SvgBranchByName` | create.py:54 | the vector branch is chosen for a joined logo path exactly when the file name ends in ".svg", in any case |
| `Logo.LogoFilesChoices` | create.py:141-142 | a path is in the logo list exactly when it is the folder joined with a listed name that has a logo extension; each path takes the vector branch exactly when its name ends in ".svg", in any case |
| `Logo.LogoNamesMembers` | create.py:141-142 | a listed name is kept exactly when its lower-cased form ends in .png, .jpg, .jpeg, .gif or .svg |
| `Logo.LogoNamesAppend` | create.py:141-142 | the filter keeps listing order: filtering a concatenation concatenates the filtered parts |
| `Logo.LogoFilterIgnoresCase` | create.py:141-142 | a name and its lower-cased form are kept alike; every .svg name is kept; LOGO.PNG is kept and logo.pdf is not |
| `Badges.CreateBadges` | create.py:134-172 | discards the first row and filters the logos; fails with IndexError when a badge is due and no logo was found, else with ZeroDivisionError when some badge drew a zero-size SVG, else returns the plan of all rows |
| `Badges.RowsOutcomeCases` | create.py:148-172 | running the rows in order yields IndexError, ZeroDivisionError or the plan under exactly those conditions, whichever row fails first |
| `Badges.RowsOutcomeStops` | create.py:148-172 | once a row has raised, the later rows change nothing |
| `Badges.DrawRow` | create.py:165-172 | a row fails with ZeroDivisionError exactly when its logo is an SVG with a zero side; otherwise it yields a page start with guides in slot 0 and the badge at its slot |
| `Badges.LayOutRows` | create.py:148-172 | the loop over the rows ends with the outcome of running them in order, row i (empty or not) taking index i, stopping at the first error |
| `Badges.PlanBadgeCount` | create.py:148-172 | exactly one badge per non-empty row |
| `Badges.PlanPageCount` | create.py:148-166 | with no empty row, n attendees start n/2 rounded up pages |
| `Badges.PlanPagesBeforeSlotZero` | create.py:155-166 | every badge is in slot 0 or 1; a page start with both cut guides comes right before each slot-0 badge and before nothing else |
| `Badges.SlotExamples` | create.py:146-166 | rows 0, 1, 2 go to page 0 slot 0, page 0 slot 1 and page 1 slot 0, a page start with guides before rows 0 and 2 |
| `Badges.EmptyRowExample` | create.py:146-166 | a header-only file draws nothing; after an empty first attendee row, the next name is drawn in slot 1 with no page started |
| `Badges.SlotGeometry` | create.py:136-166 | both slots lie on the Letter page; the vertical guide is their common edge; the horizontal guide is slot 0's bottom edge, spans the page width and crosses slot 1 one inch below its top, under its title lines |
| `PdfMerge.SelectPdfsMembers` | merge_into_one_big_pdf.py:12 | a name is selected exactly when it is listed, ends in ".pdf" (case-sensitive) and differs from the output name |
| `PdfMerge.SelectionMembers` | merge_into_one_big_pdf.py:12-15 | the sorted selection holds every listed ".pdf" name other than the output and nothing else; the output is never an input |
| `PdfMerge.SortFiles` | merge_into_one_big_pdf.py:15 | sorts the array in place in ascending string order, as a permutation of its contents |
| `PdfMerge.SortedUnique` | merge_into_one_big_pdf.py:15 | two sorted arrangements of the same names are equal, so the merge order is determined |
| `PdfMerge.Merger.constructor` | merge_into_one_big_pdf.py:9 | a new merger holds no input |
| `PdfMerge.Merger.Append` | merge_into_one_big_pdf.py:19 | appending adds the path at the end of the merger's inputs |
| `PdfMerge.CombinePdfs` | merge_into_one_big_pdf.py:5-26 | the folder defaults to cwd; the merger receives folder/name for each selected file in ascending order; the result is folder joined with the output name |
| `PdfMerge.SelectExample` | merge_into_one_big_pdf.py:12 | from b.pdf, combined.pdf, a.pdf, X.PDF, notes.txt, c.pdf the selection is b.pdf, a.pdf, c.pdf; without PDFs it is empty |
| `PdfMerge.MergeOrderExample` | merge_into_one_big_pdf.py:12-19 | b.pdf, a.pdf, c.pdf are merged as a.pdf, b.pdf, c.pdf; a folder with no PDF merges nothing |
| `PdfMerge.MergeFromCommandLine` | merge_into_one_big_pdf.py:32-37 | with folder argv[1] (or the current directory) and output argv[2] (or combined.pdf): the merged inputs are the folder joined with each selected name in ascending order, and the printed path is the folder joined with the output |
| `Strings.Join` | merge_into_one_big_pdf.py:22 | the joined path ends with the name and, for a relative name, starts with the folder, with one "/" between them |
| `Strings.LexTotal` | merge_into_one_big_pdf.py:15 | any two strings are ordered one way or the other |
| `Strings.LexTransitive` | merge_into_one_big_pdf.py:15 | Python's string order is transitive |
| `Strings.LexAntisymmetric` | merge_into_one_big_pdf.py:15 | two strings ordered both ways are equal |

## Left out

- Drawing on the canvas (`setFont`, `rect`, `drawCentredString`, `line`, `drawImage`, `renderPDF.draw`) and `c.save()` are reportlab rendering; the model records page starts and badge placements only.
- The leading `showPage()` before the first badge: how reportlab counts that first page is library behaviour, so the number of pages in the file is not modelled, only the page starts.
- `stringWidth` is a parameter: the name's width at size 1 (`unitWidth`), times the font size, since Helvetica widths scale linearly with the size.
- Geometry.NameFontSize: requires a non-negative badge width, because with a negative width and a zero-width name the source loop never ends; the source only calls it with 306 points.
- `drawing.scale` is a foreign call. `drawing.minWidth()` is taken to be the drawing's width, so the scaled size is width·scale by height·scale.
- The raster branch (PIL alpha compositing, mode conversion, PNG re-encoding) is image processing in a library.
- `random.choice` is an input: `picks[i]` is the index drawn for row i.
- `os.listdir`, CSV parsing (rows arrive already split into fields), `os.getcwd` (a parameter), `PdfMerger.write`/`close` and `print` are I/O.
- `svg2rlg` is a parameter (`svgOf`): the drawing read from each SVG path. Decoding failures of a logo or of an input PDF are not modelled.
- Shapes are values: the source reassigns colour fields in place, so a shape object shared by two groups would be recoloured twice; that aliasing is not captured.
- Floating point is idealised as `real`; the alpha channel that `colors.Color(...)` resets is dropped.
- `str.lower` is modelled on ASCII letters only; other Unicode case mappings are not, which matters to none of the five extensions.
- `list.sort` is modelled by an insertion sort; any sorted permutation is the same sequence (`PdfMerge.SortedUnique`), so the merge order agrees with Python's.
- Badges.CreateBadges: on an error path the model returns only the error, not the pages the source drew before it, since that canvas is never saved.
- `page_num` is computed by the source and never used; the model does not keep it.
