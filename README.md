# plot_tempanomaly in Dafny

A verified model of `plot_tempanomaly.py`, the script that renders the GISS
surface temperature anomaly (GISTEMP v4) as one PNG per month. Given the
already parsed `--start` and `--end` years and the `tempanomaly` variable, the
script does the following:

- it rejects the year range through five checks, each of which writes one
  error message to standard error and exits with status 1;
- it opens the dataset;
- for each year in `range(start, end)` it calls `get_year`. That function
  takes one colour range from the minimum and maximum of the whole variable.
  For each month it prints a progress line, reads time index
  `(year - 2000) * 12 + month - 1`, flips the latitude rows and saves an
  image titled `"%d-%02d"` under the name `"%d-%02d.png"`.

The model keeps the script's failure paths instead of excluding them:

- a variable with no values makes `.min()` raise ValueError before anything
  is printed;
- a time index past the end of the variable raises IndexError after that
  month's progress line has been printed, and the images saved before it stay
  written.

Files:

- `outcomes.dfy`: the `Option` type.
- `validation.dfy`: the validation chain, with its order and messages.
- `naming.dfy`: the time index, and the `%d`/`%02d` formatting with a parser
  that reads the text back.
- `slices.dfy`: the variable as a time × latitude × longitude grid of
  integers, the row flip, and the global minimum and maximum.
- `schedule.dfy`: the frames of a run, the images and progress lines it
  produces up to the first failed lookup, the `Outcome` of a whole run, and
  the lemmas about it.
- `plotter.dfy`: the class `Renderer`, whose fields are the observable state.
  Its loop methods `GetYear` and `Years` (with `Month` and `Year`, one pass
  of each loop) are proved to append exactly the
  images and progress lines that `Images` and `Progress` give for one year
  and for the whole range; `Run`, the entry point, is proved to leave the
  state that `Outcome` describes.

Notes on the code:

- The colour range is computed over the whole variable (`data[:,:,:]`, lines
  19-20), not per year, so every image of a run has the same `vmin` and
  `vmax`.
- Each error message starts with `Error: ` and ends with a newline.
- The third check rejects only a start after 2023, so 2023 itself is
  accepted, although its message says "before 2023".
- The fourth check (end before 2001) can never fire, because the first two
  checks already force the end to be at least 2001
  (`Validation.EndTooEarlyNeverReported`).

## Model

| member | source | states |
|---|---|---|
| Validation.Fails | code/plot_tempanomaly.py:47-63 | the condition each of the five checks tests; a range that fails any check is not a supported range |
| Validation.Message | code/plot_tempanomaly.py:48-64 | the exact text each check writes to standard error: it starts with `Error: ` and ends with a newline (their distinctness is `MessagesDistinct`) |
| Validation.Validate | code/plot_tempanomaly.py:47-65 | accepts exactly when 2000 ≤ start ≤ 2023, 2001 ≤ end ≤ 2024 and start < end; otherwise reports a check that fails, with every check performed before it passing |
| Validation.MessagesDistinct | code/plot_tempanomaly.py:48-64 | the five error messages are pairwise different |
| Validation.EndTooEarlyNeverReported | code/plot_tempanomaly.py:59-61 | the "End date must be after 2001" check is never the one reported |
| Validation.StartTooLateMasksEndTooLate | code/plot_tempanomaly.py:55-65 | whenever the start-too-late check reports, the end-too-late check would fail as well |
| Naming.TimeIndex | code/plot_tempanomaly.py:16 | the index `(year - 2000) * 12 + month0` read for a month; its meaning is given by the round-trip, onto, injectivity and bounds lemmas below |
| Naming.TimeIndexBounds | code/plot_tempanomaly.py:16 | for a month offset 0..11, the index lies in [0, 288) exactly when the year is in 2000..2023 |
| Naming.TimeIndexRoundTrip | code/plot_tempanomaly.py:16 | `(year - 2000) * 12 + m` for a month offset 0..11 gives back year and month by division and remainder |
| Naming.TimeIndexOnto | code/plot_tempanomaly.py:16 | every integer is the time index of the (year, month) it stands for |
| Naming.TimeIndexInjective | code/plot_tempanomaly.py:16 | distinct (year, month offset) pairs read distinct time indices |
| Naming.NatText | code/plot_tempanomaly.py:29 | `%d` of a non-negative number is a non-empty digit string without a leading zero |
| Naming.IntText | code/plot_tempanomaly.py:29 | `%d` of an integer: digits, with a leading minus sign exactly when the integer is negative (read back by `IntTextRoundTrip`) |
| Naming.Pad2 | code/plot_tempanomaly.py:29 | `%02d`: at least two characters of `%d` text, with a leading zero for 0..9 (read back by `Pad2RoundTrip`) |
| Naming.Title | code/plot_tempanomaly.py:26 | the plot title `"%d-%02d" % (year, month)`; `TitleIsFileStem` relates it to the file name |
| Naming.FileName | code/plot_tempanomaly.py:29 | the saved file name `"%d-%02d.png" % (year, month)`; `FileNameRoundTrip` and `FileNameInjective` state what it determines |
| Naming.ProgressLine | code/plot_tempanomaly.py:23 | the line `print(year, "-", month, sep="")` writes, newline included |
| Naming.NatTextRoundTrip | code/plot_tempanomaly.py:29 | the digits of `%d` read back as the number |
| Naming.IntTextRoundTrip | code/plot_tempanomaly.py:29 | `%d` of any integer, sign included, reads back as the integer |
| Naming.Pad2RoundTrip | code/plot_tempanomaly.py:29 | `%02d` of 0..99 is exactly two digits and reads back as the number |
| Naming.TitleIsFileStem | code/plot_tempanomaly.py:26-29 | every file name is the plot title followed by `.png` |
| Naming.FileNameRoundTrip | code/plot_tempanomaly.py:29 | a file name reads back as the (year, month) it was made from |
| Naming.FileNameInjective | code/plot_tempanomaly.py:29-31 | distinct (year, month) pairs give distinct file names |
| Slices.FlipRows | code/plot_tempanomaly.py:25 | `[::-1]` on the latitude axis keeps the number of rows |
| Slices.FlipRowsAt | code/plot_tempanomaly.py:25 | row i of the flipped slice is row nlat - 1 - i of the original |
| Slices.FlipRowsInvolution | code/plot_tempanomaly.py:25 | flipping twice gives back the slice |
| Slices.Flatten | code/plot_tempanomaly.py:19-20 | `data[:, :, :]` read as one sequence of values; `FlattenHas` and `FlattenOnly` show it holds exactly the variable's values |
| Slices.FlattenOnly | code/plot_tempanomaly.py:19-20 | every value `min` and `max` range over is a value of the variable at some (time, row, column) |
| Slices.FlattenHas | code/plot_tempanomaly.py:19-20 | every value of the variable is among the values `min` and `max` range over |
| Slices.FlattenEmpty | code/plot_tempanomaly.py:19-20 | the variable has no values exactly when all its rows are empty |
| Slices.MinOf | code/plot_tempanomaly.py:19 | `.min()` is a value of the variable and no larger than any |
| Slices.MaxOf | code/plot_tempanomaly.py:20 | `.max()` is a value of the variable and no smaller than any |
| Slices.FlippedWithinRange | code/plot_tempanomaly.py:19-27 | every value of a flipped slice lies between the global min and max |
| Schedule.PyIndex | code/plot_tempanomaly.py:25 | an index selects a position exactly when -n ≤ i < n, and a non-negative index selects itself |
| Schedule.PyIndexNegative | code/plot_tempanomaly.py:25 | a negative index in range counts from the end: it selects position n + i |
| Schedule.ReadableIsLookup | code/plot_tempanomaly.py:25 | a frame is readable exactly when the lookup of its time index selects a position |
| Schedule.VarMin | code/plot_tempanomaly.py:19 | `data[:,:,:].min()`: `MinOf` of the variable's values |
| Schedule.VarMax | code/plot_tempanomaly.py:20 | `data[:,:,:].max()`: `MaxOf` of the variable's values |
| Schedule.Plot | code/plot_tempanomaly.py:25-31 | the image saved for a month: its title and file name, the time index read, the colour range and the slice at that index flipped |
| Schedule.RenderFrame | code/plot_tempanomaly.py:25-31 | the image saved for a frame, read from the frame's time index; `ImagesAt` and `CompleteRunAt` state what it holds |
| Schedule.YearFrames | code/plot_tempanomaly.py:22 | the twelve frames of one `get_year` call, January first; `MonthFrame` states frame y |
| Schedule.Planned | code/plot_tempanomaly.py:70-71 | the frames of years start..end-1 in order; `PlannedAt`, `PlannedCovers` and `PlannedIncreasing` state its shape |
| Schedule.Outcome | code/plot_tempanomaly.py:47-71 | everything a run makes observable, case by case: rejected, empty variable, or frames rendered up to the first failed lookup; its cases are stated by `RejectedRun`, `EmptyVariableRun`, `CompleteRun` and `TruncatedRun` |
| Schedule.PlannedAt | code/plot_tempanomaly.py:70-71 | a run has 12 * (end - start) frames, and frame k is month k % 12 + 1 of year start + k / 12 |
| Schedule.PlannedCovers | code/plot_tempanomaly.py:70-71 | a frame belongs to the run exactly when its year is in [start, end) and its month in 1..12 |
| Schedule.PlannedIncreasing | code/plot_tempanomaly.py:70-71 | the frames come in strictly increasing calendar order |
| Schedule.PlannedTimeIndex | code/plot_tempanomaly.py:16-25 | frame k reads time index TimeIndex(start, 0) + k, so the indices are contiguous |
| Schedule.PlannedSplit | code/plot_tempanomaly.py:70-71 | the frames of [start, end) are those of [start, mid) followed by those of [mid, end) |
| Schedule.ReadablePrefix | code/plot_tempanomaly.py:22-25 | the run reads every frame before the first one whose index is out of range, and stops there |
| Schedule.PrefixIs | code/plot_tempanomaly.py:22-25 | the readable prefix is fixed by its first unreadable frame |
| Schedule.Images | code/plot_tempanomaly.py:22-31 | one image is saved per frame of the readable prefix |
| Schedule.ImagesAt | code/plot_tempanomaly.py:25-31 | image k is the rendering of frame k: its title, file name, time index, colour range and flipped slice |
| Schedule.Progress | code/plot_tempanomaly.py:22-25 | one progress line is printed per frame attempted, including the one whose lookup fails |
| Schedule.ProgressAt | code/plot_tempanomaly.py:23 | progress line k announces frame k |
| Schedule.PrefixAppend | code/plot_tempanomaly.py:70-71 | reading a + b gets into b only if every frame of a is read |
| Schedule.ImagesAppend | code/plot_tempanomaly.py:70-71 | the images of a + b are those of a, then those of b only if a was read whole |
| Schedule.ProgressAppend | code/plot_tempanomaly.py:70-71 | the progress lines of a + b are those of a, then those of b only if a was read whole |
| Schedule.ReadAppend | code/plot_tempanomaly.py:70-71 | after a fully read a, the run continues into b |
| Schedule.StopAppend | code/plot_tempanomaly.py:70-71 | after a failed lookup in a, nothing of b is printed or saved |
| Schedule.MonthFrame | code/plot_tempanomaly.py:22-25 | month y + 1 of a year is its frame y and reads time index TimeIndex(year, 0) + y |
| Schedule.ImageAt | code/plot_tempanomaly.py:25-31 | the image saved for a readable frame, spelled out from its year, month and index |
| Schedule.MonthReadable | code/plot_tempanomaly.py:25 | a month whose lookup succeeds extends the readable prefix of its year |
| Schedule.MonthSaved | code/plot_tempanomaly.py:25-31 | saving month y + 1 extends the year's first y images to its first y + 1 |
| Schedule.MonthPrinted | code/plot_tempanomaly.py:23 | printing month y + 1 extends the year's first y progress lines to its first y + 1 |
| Schedule.MonthFailed | code/plot_tempanomaly.py:23-25 | a failed lookup at month y: the year saved exactly y images, and that month's progress line is its last |
| Schedule.YearRead | code/plot_tempanomaly.py:70-71 | a year read in full extends the images and progress lines of the run so far by its own |
| Schedule.YearFailed | code/plot_tempanomaly.py:70-71 | a year that raises ends the run: what has been written is all the whole run writes, and an empty variable raises ValueError before any output |
| Schedule.RejectedRun | code/plot_tempanomaly.py:47-65 | a rejected range writes one message (that of the first failing check) and exits with status 1, without opening the dataset or writing anything else |
| Schedule.EmptyVariableRun | code/plot_tempanomaly.py:19-20 | an accepted range on a variable without values opens the dataset and raises ValueError before any progress line or image |
| Schedule.CompleteRunAt | code/plot_tempanomaly.py:16-31 | image k of a complete run is month k % 12 + 1 of year start + k / 12: its name and title, index TimeIndex(start, 0) + k in [0, 288), row r equal to row nlat - 1 - r of that slice, and the global colour range |
| Schedule.FrameShown | code/plot_tempanomaly.py:16-31 | the image saved for frame k shows that frame's month (ShowsFrame) when frame k reads index t in [0, 288) |
| Schedule.PlotShowsFrame | code/plot_tempanomaly.py:25-31 | an image built from a month and a non-negative index has that month's name and title, the slice's rows in reverse order and the global colour range |
| Schedule.CompleteRun | code/plot_tempanomaly.py:67-71 | on a variable that covers the range, the run exits with 0 after 12 * (end - start) images and progress lines, image k showing frame k |
| Schedule.TruncatedRun | code/plot_tempanomaly.py:22-25 | on a variable too short for the range, the run saves the images whose index exists, prints one more progress line and raises IndexError |
| Schedule.RenderWithinScale | code/plot_tempanomaly.py:19-27 | every pixel of a saved image lies within its colour range |
| Schedule.RunColourScale | code/plot_tempanomaly.py:19-27 | every image of a run has the global min and max as its range, and its pixels lie inside it |
| Schedule.RunFileNamesDistinct | code/plot_tempanomaly.py:29-31 | no two images of a run share a file name, so none overwrites another |
| Plotter.Renderer.GetYear | code/plot_tempanomaly.py:12-32 | `get_year` appends the images and progress lines of the year's frames up to the first failed lookup, and raises ValueError on an empty variable before any output |
| Plotter.Renderer.Month | code/plot_tempanomaly.py:22-32 | one pass of the month loop: it prints the month's line, then either saves its image or stops with the year's output complete |
| Plotter.Renderer.Year | code/plot_tempanomaly.py:70-71 | one pass of the year loop: a year that returns extends the run's output to the years up to it; one that raises leaves exactly the whole run's output |
| Plotter.Renderer.Years | code/plot_tempanomaly.py:70-71 | the year loop produces exactly the images, progress lines and exception of the whole run's frames |
| Plotter.Renderer.Run | code/plot_tempanomaly.py:47-71 | the entry point's observable behaviour (dataset opened, progress lines, the checks' error messages, images, and how it ends) is `Schedule.Outcome` |

## Left out

- code/gistemp_subset.py is not part of this model. It only wraps xarray
  (open, a fixed time slice, attribute copy, write), and its logic lives in
  that library.
- The matplotlib calls (`clf`, `title`, `imshow`, `colorbar`, `savefig`) and
  the `agg` backend are foreign calls on global plotting state. Each saved
  figure is modelled as one `Image` record appended to `written`. Image
  encoding and the colour bar are not modelled.
- Opening the NetCDF file and looking up `tempanomaly` (lines 67-68) are
  I/O: the variable is a parameter. A missing file or a missing variable
  (KeyError) is not modelled.
- Argument parsing is not modelled: argparse, the defaults "2000" and
  "2024", and the ValueError that `int()` raises on non-numeric text.
  `start` and `end` are taken as already parsed integers.
- Floating-point values, masked and fill values, and NaN handling inside
  `.min()` and `.max()` are not modelled. The values are integers.
- An uncaught ValueError or IndexError makes the interpreter print a
  traceback to standard error and exit with status 1. The traceback is not
  in `stderr`: the termination `Raised(e)` stands for it, and `stderr` holds
  only the messages the script itself writes.
- Schedule.VarMin: returns 0 for a variable without values, where `.min()`
  raises; every caller handles that case first.
- Schedule.VarMax: returns 0 for a variable without values, where `.max()`
  raises; every caller handles that case first.
- The exact bytes of the progress output are modelled as one string per
  `print` call: year, `-`, month and a newline.
