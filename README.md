# SetWallpaperShowtext, modelled in Dafny

`SetWallpaperShowtext` is a command-line utility. It renders its first
argument as text on a bitmap and installs the bitmap as the desktop
wallpaper. An unused second path picks a search word from a file, asks an
image-search service for pictures, downloads one and crops it to the
screen. This project models the computational core of both paths:

- **Line splitting** (`line_split.dfy`, module `LineSplit`). The text is
  split on the two-character separator backslash-`n`, as Java's
  `String.split` does it. With no separator the result is the whole text.
  Otherwise pieces are cut left to right and trailing empty pieces are
  dropped.
- **Layout** (`text_layout.dfy`, module `TextLayout`):
  - the weighted width of the widest line (`getRealFontWidth`);
  - the canvas size and the baseline of each line (`makeImage`);
  - the driver `main`: no argument, a size error, or a rendered image.
  Widths are counted in half-units: a unit below 256 weighs 1 (0.5 in the
  source) and any other unit weighs 2 (1.0).
- **Search words** (`search_words.dfy`, module `SearchWords`).
  `loadSearchWords` works over the lines of the file: each line is
  lower-cased and trimmed, and blank and `//` lines are dropped.
  `selectSearchWord` takes the randomly drawn index as a parameter.
- **Result clean-up** (`result_cleanup.dfy`, module `ResultCleanup`). This
  is the chain `replaceAll("[^a-zA-Z0-9]", " ")`,
  `replaceAll("\\s+", " ")`, `trim()` from `showResults`.
- **Cropping** (`crop.dfy`, module `Crop`). `cropImage` decides the new size
  and the drawing offset. The centring offset uses Java's `int` division,
  which rounds toward zero.
- **Java strings** (`java_text.dfy`, module `JavaText`). Strings are
  sequences of UTF-16 code units. The module defines `trim`, `toLowerCase`
  and `startsWith`.

Two details of the code shape the model:

- **Canvas height.** `main` passes one band height, the font size, to
  `makeImage` (`SetWallpaperShowtext.java:60`). The line-count factor
  `(fontSize+5)*tmpArr.length` is commented out there. `makeImage` first
  allocates an image `width` by `height`. It then replaces it with one
  `height*tmpArr.length` high (`SetWallpaperShowtext.java:78`), so the
  canvas still grows with the number of lines. `MakeImage` models both
  allocations.
- **Failed write.** The `catch` at `SetWallpaperShowtext.java:66-68` prints
  an `IOException` from `ImageIO.write` and falls through, so
  `installWallpaper` at line 69 is called whether or not the write
  succeeded. Writing and installing are outside this model (see below), so
  `Rendered` marks the point where both would follow.

A `BufferedImage` with a non-positive side makes Java throw
`IllegalArgumentException`. The model returns this as the `BadSize` and
`SizeError` results. It happens for an empty text, or a text made only of
separators, because the canvas is then zero pixels wide or has zero lines.

## Model

| member | source | states |
|---|---|---|
| LineSplit.Pieces | SetWallpaperShowtext.java:94 | the pieces cut at every separator number one more than the separators; the first piece is a prefix of the text; a single piece is the whole text |
| LineSplit.DropTrailingEmpty | SetWallpaperShowtext.java:94 | the result is a prefix of the pieces that ends in a non-empty piece (or is empty), and only empty pieces were dropped |
| LineSplit.StripTrailingSeparators | SetWallpaperShowtext.java:94 | the text with its run of trailing separators removed: a prefix of the text that does not end with a separator, and the text is that prefix followed by whole separators only |
| LineSplit.Separators | SetWallpaperShowtext.java:94 | n separators in a row are 2n units |
| LineSplit.CountZeroIff | SetWallpaperShowtext.java:94 | the separator count is zero exactly when the text contains no separator |
| LineSplit.JoinPieces | SetWallpaperShowtext.java:94 | joining the pieces with the separator gives back the text |
| LineSplit.PiecesHaveNoSeparator | SetWallpaperShowtext.java:94 | no piece contains a separator |
| LineSplit.ConsNoSeparator | SetWallpaperShowtext.java:94 | a unit put in front of a separator-free line creates no separator unless it is a backslash before an `n` |
| LineSplit.LastPieceEmptyIff | SetWallpaperShowtext.java:94 | the last piece is empty exactly when the text is empty or ends with a separator |
| LineSplit.SplitHasNoSeparator | SetWallpaperShowtext.java:59 | no line produced by `split` contains a separator |
| LineSplit.SplitCount | SetWallpaperShowtext.java:76 | `split` yields one line more than there are separators exactly when the text does not end with a separator |
| LineSplit.JoinSnoc | SetWallpaperShowtext.java:94 | joining a longer list appends the separator and the new line |
| LineSplit.JoinNotEndingWithSeparator | SetWallpaperShowtext.java:94 | joined lines whose last line is non-empty and separator-free do not end with a separator |
| LineSplit.StripSeparatorSuffix | SetWallpaperShowtext.java:94 | one more trailing separator changes nothing once trailing separators are stripped |
| LineSplit.JoinDropTrailingEmpty | SetWallpaperShowtext.java:94 | dropping trailing empty lines strips exactly the trailing separators of the joined text |
| LineSplit.SplitJoin | SetWallpaperShowtext.java:94 | joining the lines of `split` gives the text without its trailing separators (the round trip) |
| LineSplit.JoinEmpty | SetWallpaperShowtext.java:94 | lines that join to the empty text are at most one empty line |
| LineSplit.SplitAllEmptyIff | SetWallpaperShowtext.java:94 | every line of `split` is empty exactly when the text is empty or only separators |
| LineSplit.Split | SetWallpaperShowtext.java:94 | at most one line more than there are separators; a text without a separator is one line, itself; with a separator, the last line (if any) is not empty |
| LineSplit.JoinCons | SetWallpaperShowtext.java:94 | one line in front of a non-empty list joins with a separator between |
| LineSplit.JoinExtendHead | SetWallpaperShowtext.java:94 | lengthening the first line at its front lengthens the join by the same units |
| TextLayout.LineWeight | SetWallpaperShowtext.java:97-105 | the sum over the line of `UnitWeight` (1 half-unit for `charAt(j)<256`, else 2, lines 100-104) lies between the line's length and twice its length |
| TextLayout.GetRealFontWidth | SetWallpaperShowtext.java:92-111 | the nested loops return the weight of the heaviest line of `split` (0 for no lines) |
| TextLayout.NarrowLineWeight | SetWallpaperShowtext.java:100-101 | a line of units below 256 weighs 0.5 per unit |
| TextLayout.WideLineWeight | SetWallpaperShowtext.java:102-103 | a line of units at or above 256 weighs 1.0 per unit |
| TextLayout.MaxWeight | SetWallpaperShowtext.java:106-108 | no line weighs more than the running maximum |
| TextLayout.MaxWeightAttained | SetWallpaperShowtext.java:106-108 | with at least one line, the maximum is the weight of one of the lines |
| TextLayout.MaxWeightZeroIff | SetWallpaperShowtext.java:95-108 | the width is zero exactly when every line is empty |
| TextLayout.TextWidthZeroIff | SetWallpaperShowtext.java:92-111 | the text's width is zero exactly when the text is empty or only separators |
| TextLayout.SingleLineNarrowWidth | SetWallpaperShowtext.java:92-111 | a single line of N units below 256 is N half-units wide |
| TextLayout.SingleLineWideWidth | SetWallpaperShowtext.java:92-111 | a single line of N units at or above 256 is 2N half-units wide |
| TextLayout.CanvasWidth | SetWallpaperShowtext.java:56-58 | `(int)(40 * realWidth)` is exactly 20 pixels per half-unit |
| TextLayout.BaselinesIncrease | SetWallpaperShowtext.java:86-88 | later lines have strictly lower baselines |
| TextLayout.BaselineY | SetWallpaperShowtext.java:87 | with bands of at least 5 pixels, line i's baseline lies in its own band, from height*i up to but excluding height*(i+1) |
| TextLayout.BaselineInCanvas | SetWallpaperShowtext.java:86-88 | with bands of at least 5 pixels, every line's baseline lies inside a canvas of that many bands |
| TextLayout.MakeImage | SetWallpaperShowtext.java:73-91 | fails exactly for a non-positive side or no lines; otherwise the canvas is width by height times lines, filled white, and line i is drawn at (5, height*(i+1)-5); baselines increase and lie on the canvas |
| TextLayout.RenderText | SetWallpaperShowtext.java:48-71 | no argument ends the run; a size error happens exactly for an empty or separator-only text; otherwise the image is 20 pixels per half-unit wide and laid out in 40-pixel bands |
| SearchWords.LoadSearchWords | SetWallpaperShowtext.java:127-148 | the loop returns the normalised lines that are neither blank nor comments, in file order |
| SearchWords.SelectSearchWord | SetWallpaperShowtext.java:113-120 | the default `nature` when there are no words, otherwise the word at the drawn index; either way a non-blank non-comment word |
| SearchWords.FilterWordsAppend | SetWallpaperShowtext.java:134-141 | the words of two consecutive stretches of the file are the words of each, in order |
| SearchWords.EveryWordQualifies | SetWallpaperShowtext.java:136-140 | every word is a non-blank, non-comment normalisation of some line |
| SearchWords.EveryQualifyingLineKept | SetWallpaperShowtext.java:134-141 | every line whose normalisation is a non-blank, non-comment word contributes it |
| SearchWords.Normalize | SetWallpaperShowtext.java:135 | a normalised line has no upper-case ASCII letter and no unit at or below U+0020 at either end |
| SearchWords.FilterWords | SetWallpaperShowtext.java:134-141 | at most one word per line, and every word is an `IsSearchWord`: non-blank and not starting with `//` (`StartsWith`, lines 136-139) |
| SearchWords.WordsAreLowerAndTrimmed | SetWallpaperShowtext.java:135-140 | every word is non-empty, has no upper-case ASCII letter and no unit at or below U+0020 at either end |
| SearchWords.BlankLineIff | SetWallpaperShowtext.java:135-137 | a line is skipped as blank exactly when all its units are at or below U+0020 |
| JavaText.ToLowerUnit | SetWallpaperShowtext.java:135 | upper-case ASCII letters move up by 32, every other unit is unchanged, and no upper-case letter remains |
| JavaText.ToLower | SetWallpaperShowtext.java:135 | the length is kept, no upper-case ASCII letter remains, and each unit is kept or is an upper-case letter moved up by 32 |
| JavaText.LeadingTrimmable | SetWallpaperShowtext.java:135 | the length of the leading run of units at or below U+0020 |
| JavaText.TrailingTrimmable | SetWallpaperShowtext.java:135 | the length of the trailing run of units at or below U+0020 |
| JavaText.Trim | SetWallpaperShowtext.java:135 | the slice after the leading trimmable run, followed only by trimmable units, neither starting nor ending with one |
| JavaText.AllTrimmableAppend | SetWallpaperShowtext.java:135 | two all-trimmable strings concatenate to an all-trimmable string |
| JavaText.TrimSlices | SetWallpaperShowtext.java:135 | each unit of the result is the unit of the text at the same offset past the leading trimmable run |
| JavaText.LeadingTrimmableAllIff | SetWallpaperShowtext.java:135 | the leading trimmable run is the whole text exactly when every unit is at or below U+0020 |
| JavaText.LeadingTrimmableUnique | SetWallpaperShowtext.java:135 | a trimmable prefix followed by a non-trimmable unit (or the end) is the leading run |
| JavaText.TrailingTrimmableUnique | SetWallpaperShowtext.java:135 | a trimmable suffix preceded by a non-trimmable unit (or the start) is the trailing run |
| JavaText.TrimPadded | SetWallpaperShowtext.java:212 | trimming a text padded on both sides with trimmable units, whose ends are not trimmable, gives the text |
| JavaText.TrimEmptyIff | SetWallpaperShowtext.java:135-136 | trimming gives the empty string exactly when every unit is at or below U+0020 |
| JavaText.TrimIdentity | SetWallpaperShowtext.java:212 | trimming a string that starts and ends with units above U+0020 leaves it unchanged |
| ResultCleanup.BlankOutNonAlnum | SetWallpaperShowtext.java:210 | the length is kept, alphanumeric units are untouched, and every other unit becomes a space |
| ResultCleanup.SkipWhitespace | SetWallpaperShowtext.java:211 | a suffix that starts outside `\s`, after a run of `\s` units |
| ResultCleanup.CollapseWhitespace | SetWallpaperShowtext.java:211 | never longer than the input; begins with a space exactly when the input begins with `\s` (`IsRegexSpace`: space, tab, newline, vertical tab, form feed, carriage return), else with its first unit |
| ResultCleanup.CollapseKeepsPrefix | SetWallpaperShowtext.java:211 | units outside `\s` are copied unchanged and in order |
| ResultCleanup.SkipRun | SetWallpaperShowtext.java:211 | skipping whitespace consumes exactly a maximal run of `\s` units |
| ResultCleanup.CollapseRun | SetWallpaperShowtext.java:211 | a maximal run of `\s` units becomes exactly one space |
| ResultCleanup.CollapseNoDoubleSpace | SetWallpaperShowtext.java:211 | after `replaceAll("\\s+", " ")` no two `\s` units are adjacent |
| ResultCleanup.CleanContent | SetWallpaperShowtext.java:210-212 | the cleaned text is the input's maximal alphanumeric runs joined by single spaces; so it has only `[a-zA-Z0-9 ]`, no space at either end, no double space, and the input's alphanumeric units in order |
| ResultCleanup.AlnumRun | SetWallpaperShowtext.java:210 | the length of the leading run of alphanumeric units: all of them alphanumeric, and the next unit is not |
| ResultCleanup.AlnumRunUnique | SetWallpaperShowtext.java:210 | an alphanumeric prefix followed by a non-alphanumeric unit (or the end) is the leading run |
| ResultCleanup.Words | SetWallpaperShowtext.java:210-212 | the maximal alphanumeric runs of a text, in order; each is a non-empty alphanumeric word |
| ResultCleanup.WordsSkipNonAlnum | SetWallpaperShowtext.java:210 | non-alphanumeric units in front add no word |
| ResultCleanup.WordsOfWordThen | SetWallpaperShowtext.java:210 | a word followed by a non-alphanumeric unit (or the end) is the first word |
| ResultCleanup.NoWordsNoAlnum | SetWallpaperShowtext.java:210 | a text with no words has no alphanumeric unit |
| ResultCleanup.WordsOfBlankOut | SetWallpaperShowtext.java:210 | blanking out non-alphanumerics keeps the words |
| ResultCleanup.JoinWordsEnds | SetWallpaperShowtext.java:212 | words joined by spaces start and end with an alphanumeric unit |
| ResultCleanup.TrailSpaceSame | SetWallpaperShowtext.java:211 | texts with the same last unit, both with or both without words, leave the same trailing space |
| ResultCleanup.CollapseIsJoinedWords | SetWallpaperShowtext.java:211 | collapsing text in `[a-zA-Z0-9 ]` gives its words joined by single spaces, with one space in front if it starts with one and one behind if it ends with one after a word |
| ResultCleanup.CollapseLeadingSpaces | SetWallpaperShowtext.java:211 | the case of text starting with a space: one space, then the joined words |
| ResultCleanup.LeadingSpaceRun | SetWallpaperShowtext.java:211 | a text starting with `\s` is a maximal non-empty `\s` run and a rest starting outside `\s` |
| ResultCleanup.SplitLeadingSpaces | SetWallpaperShowtext.java:211 | the leading spaces collapse to one and add no word |
| ResultCleanup.SpacesThen | SetWallpaperShowtext.java:211 | a run of spaces before text whose collapse is known gives one more space in front |
| ResultCleanup.CollapseLeadingWord | SetWallpaperShowtext.java:211 | the case of text starting with a word: the joined words, then the trailing space |
| ResultCleanup.SplitLeadingWord | SetWallpaperShowtext.java:210-211 | a leading word is copied by the collapse and is the first word |
| ResultCleanup.WordAlone | SetWallpaperShowtext.java:211 | a single word collapses to itself |
| ResultCleanup.WordThenSpaces | SetWallpaperShowtext.java:211 | a word followed only by spaces collapses to the word and one space |
| ResultCleanup.WordThenWords | SetWallpaperShowtext.java:211 | a word followed by a space and more words collapses to the word, one space and their collapse |
| ResultCleanup.CleanChainIsJoinedWords | SetWallpaperShowtext.java:210-212 | the three-step chain gives the words joined by single spaces |
| ResultCleanup.TrimJoinedWords | SetWallpaperShowtext.java:212 | trimming joined words with at most one space on either side gives the joined words |
| ResultCleanup.JoinedWordsUntrimmable | SetWallpaperShowtext.java:212 | joined words neither start nor end with a unit `trim` removes |
| ResultCleanup.SpaceOrNothingTrimmable | SetWallpaperShowtext.java:212 | a single space, or nothing, is all trimmable |
| ResultCleanup.CleanContentSeparatesWords | SetWallpaperShowtext.java:210-212 | two words with any non-empty run of non-alphanumeric units between them come out as the two words and one space |
| ResultCleanup.AlnumOfAppend | SetWallpaperShowtext.java:210-212 | the alphanumeric units of a concatenation are those of each part |
| ResultCleanup.AlnumOfNone | SetWallpaperShowtext.java:210-212 | a string without alphanumeric units contributes none |
| ResultCleanup.AlnumOfBlankOut | SetWallpaperShowtext.java:210 | blanking out non-alphanumerics keeps the alphanumeric units in order |
| ResultCleanup.AlnumOfCollapse | SetWallpaperShowtext.java:211 | collapsing whitespace keeps the alphanumeric units in order |
| ResultCleanup.CollapseKeepsCleanUnits | SetWallpaperShowtext.java:210-211 | collapsing text in `[a-zA-Z0-9 ]` stays in that class |
| ResultCleanup.TrimKeepsAlnum | SetWallpaperShowtext.java:212 | `trim` removes no alphanumeric unit |
| ResultCleanup.AlnumOfTrimmedSlice | SetWallpaperShowtext.java:212 | cutting off trimmable units at either end keeps the alphanumeric units |
| ResultCleanup.SliceNoDoubleSpace | SetWallpaperShowtext.java:212 | a slice of text without adjacent `\s` units has none either |
| ResultCleanup.TrimOfCleanUnits | SetWallpaperShowtext.java:212 | trimming collapsed text in `[a-zA-Z0-9 ]` gives clean text |
| ResultCleanup.CollapseOfSingleSpaces | SetWallpaperShowtext.java:211 | text in `[a-zA-Z0-9 ]` without double spaces is unchanged by the collapse |
| ResultCleanup.CleanContentOfClean | SetWallpaperShowtext.java:210-212 | clean text is its own clean-up |
| ResultCleanup.CleanContentIdempotent | SetWallpaperShowtext.java:210-212 | cleaning twice is cleaning once |
| Crop.JavaHalf | SetWallpaperShowtext.java:303 | `a / 2` rounds toward zero: the remainder is 0, or has the sign of `a` |
| Crop.CropImage | SetWallpaperShowtext.java:292-322 | an image wider than the screen becomes screen-wide at y = 0, centred; else a taller one becomes screen-high at x = 0, centred; else it is unchanged; a non-positive new side is a size error |
| Crop.CentredUnique | SetWallpaperShowtext.java:303 | at most one offset is centred, so `CropImage`'s contract fixes its result |
| Crop.CropFits | SetWallpaperShowtext.java:292-317 | a cropped image never grows and fits the screen in the dimension that was cut |

## Left out

- Pixel rendering is left out: fonts, colours, the 50% alpha composite, the
  translucent image type and anti-aliasing. The model records the canvas
  sizes, the white rectangle and each `drawString` call with its position.
- File and process I/O is left out: `ImageIO.write`, `saveBMP`, `FileReader`,
  `System.getProperty`, `System.exit` and the printing to the console.
  The missing argument is the `MissingText` outcome.
- `installWallpaper` and the native `MyUser32` interface are left out. They
  edit the registry and call the operating system through JNA.
- `imageSearch`, `selectImage`, `getURLImage` and `tryDownloadingImage` are
  left out. They use the network, parse JSON and retry at random.
- `scaleImage` is left out: it computes in floating point and through an
  affine transform.
- `showResults` is modelled only through its clean-up chain. The JSON access
  and the printing are left out.
- `loadSearchWords` receives the file's lines. `readLine`'s own splitting of
  the file into lines is left out. A read error is modelled as the file
  ending at that point, which keeps the words read so far, as the code does.
- `selectSearchWord` receives `rand.nextInt`'s draw as the parameter
  `drawn`, below the number of words. The model assumes an initialised
  generator. In the source the field `rand` (`SetWallpaperShowtext.java:43`)
  is never assigned, so for a non-empty word list `rand.nextInt` at line
  118 throws a `NullPointerException`. With no words the default is
  returned first and the field is never touched.
- JavaText.ToLower: only ASCII letters are lowered. Java's locale-sensitive
  full Unicode case mapping is left out.
- TextLayout.GetRealFontWidth: the `float` sums are exact integers of
  half-units. They are exact in Java too below about 16 million half-units
  per line.
- TextLayout.CanvasWidth: the `float` product and the `(int)` cast are exact
  below about 3.3 million half-units, a length the command line cannot
  reach.
- TextLayout.MakeImage: the 32-bit overflow of `height * tmpArr.length` and
  of the raster size of very large images is left out. The baseline is an
  integer `height * (i + 1) - 5`, standing for the `float`
  `(float)height*(i+1)-5.0f` of line 87. The two agree while the value is
  below 2^24.
- Crop.CropImage: the screen size is an `int` parameter. The source holds it
  in `double` fields that this file never assigns.
- The regular expressions work on code points, the model on UTF-16 units. A
  surrogate pair is one replaced character in Java and two in the model.
  After the whitespace collapse both give one space, so the result is the
  same.
