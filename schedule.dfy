/**
 * What one invocation of the renderer does, as a function of its arguments and
 * of the variable's contents: which (year, month) pairs it renders and in what
 * order (code/plot_tempanomaly.py, lines 22 and 70-71), what each saved image
 * holds (lines 16-29), where it stops when a lookup fails, and what it writes
 * to standard output and standard error.
 */
module Schedule {
  import opened Outcomes
  import opened Validation
  import opened Naming
  import opened Slices

  /** One saved PNG: its title, file name, the time index it shows, its colour range and pixels. */
  datatype Image = Image(title: string, fileName: string, timeIndex: int, vmin: int, vmax: int, pixels: Slice)

  /** The uncaught Python exceptions a run can end with. */
  datatype PyError =
    | ValueError   // `.min()` of a variable without values
    | IndexError   // a time index outside the variable

  datatype Termination = Exited(status: int) | Raised(error: PyError)

  /** Process exit status: `sys.exit(n)` gives n, an uncaught exception gives 1. */
  function ExitStatus(t: Termination): int
  {
    match t
    case Exited(n) => n
    case Raised(_) => 1
  }

  /** Everything a run makes observable. */
  datatype Transcript = Transcript(
    datasetOpened: bool,           // whether the dataset file was opened
    stdout: seq<string>,     // progress lines
    stderr: seq<string>,     // error messages
    written: seq<Image>,     // image files saved, in order
    termination: Termination)

  // ---------------------------------------------------------------------------
  // Indexing the time axis

  /**
   * Position that integer index `i` selects on an axis of length `n`, Python
   * style (a negative index counts from the end); `None` where the lookup
   * raises IndexError.
   */
  function PyIndex(i: int, n: nat): (r: Option<nat>)
    ensures r.Some? <==> -(n as int) <= i < n
    ensures r.Some? ==> r.value < n && (i >= 0 ==> r.value == i)
  {
    if 0 <= i < n then Some(i) else if -(n as int) <= i < 0 then Some(n + i) else None
  }

  /** A negative index counts from the end: -1 selects the last position. */
  lemma PyIndexNegative(i: int, n: nat)
    requires -(n as int) <= i < 0
    ensures PyIndex(i, n) == Some(n + i)
  {
  }

  /** Whether the slice for frame `f` can be read from a variable with `n` time steps. */
  predicate Readable(f: Frame, n: nat)
  {
    -(n as int) <= TimeIndex(f.year, f.month - 1) < n
  }

  /** A frame is readable exactly when looking up its time index selects a position. */
  lemma ReadableIsLookup(f: Frame, n: nat)
    ensures Readable(f, n) <==> PyIndex(TimeIndex(f.year, f.month - 1), n).Some?
  {
  }

  /**
   * `data.min()` and `data.max()`: the least and greatest value of the whole
   * variable; 0 stands in where they raise ValueError, which callers rule out.
   */
  function VarMin(data: Variable): int
  {
    var flat := Flatten(data);
    if |flat| > 0 then MinOf(flat) else 0
  }

  function VarMax(data: Variable): int
  {
    var flat := Flatten(data);
    if |flat| > 0 then MaxOf(flat) else 0
  }

  /**
   * The image saved for month `month` of `year` from time index `t`: titled
   * and named after the month, showing the slice at `t` flipped upside down,
   * with the colour range [lo, hi].
   */
  function Plot(year: int, month: int, t: int, data: Variable, lo: int, hi: int): Image
    requires PyIndex(t, |data|).Some?
  {
    Image(Title(year, month), FileName(year, month), t, lo, hi, FlipRows(data[PyIndex(t, |data|).value]))
  }

  /** The image saved for frame `f`, with the colour range [lo, hi]. */
  function RenderFrame(f: Frame, data: Variable, lo: int, hi: int): Image
    requires Readable(f, |data|)
  {
    Plot(f.year, f.month, TimeIndex(f.year, f.month - 1), data, lo, hi)
  }

  // ---------------------------------------------------------------------------
  // The frames of a run

  /** The twelve frames of one call `get_year(year, data)`, January first. */
  function YearFrames(year: int): seq<Frame>
  {
    seq(12, m => Frame(year, m + 1))
  }

  /** The frames of years `start`, ..., `end - 1`, in the order they are rendered. */
  function Planned(start: int, end: int): seq<Frame>
    decreases end - start
  {
    if end <= start then [] else Planned(start, end - 1) + YearFrames(end - 1)
  }

  /** Frame `k` of a run is month `k % 12 + 1` of year `start + k / 12`. */
  lemma {:induction false} PlannedAt(start: int, end: int)
    requires start <= end
    ensures |Planned(start, end)| == 12 * (end - start)
    ensures forall k :: 0 <= k < |Planned(start, end)| ==>
              Planned(start, end)[k] == Frame(start + k / 12, k % 12 + 1)
    decreases end - start
  {
    if end > start {
      PlannedAt(start, end - 1);
      var p := Planned(start, end - 1);
      forall k | 0 <= k < |Planned(start, end)|
        ensures Planned(start, end)[k] == Frame(start + k / 12, k % 12 + 1)
      {
        if k >= |p| {
          var m := k - |p|;
          assert k == 12 * (end - 1 - start) + m;
          assert k / 12 == end - 1 - start && k % 12 == m;
        }
      }
    }
  }

  /** The frames of a run are exactly the months 1..12 of the years start..end-1 (end excluded). */
  lemma {:induction false} PlannedCovers(start: int, end: int, f: Frame)
    requires start <= end
    ensures f in Planned(start, end) <==> start <= f.year < end && 1 <= f.month <= 12
  {
    PlannedAt(start, end);
    var p := Planned(start, end);
    if start <= f.year < end && 1 <= f.month <= 12 {
      var k := 12 * (f.year - start) + f.month - 1;
      assert k / 12 == f.year - start && k % 12 == f.month - 1;
      assert p[k] == f;
    }
  }

  /** Whether frame `f` comes strictly before frame `g` in calendar order. */
  predicate Before(f: Frame, g: Frame)
  {
    f.year < g.year || (f.year == g.year && f.month < g.month)
  }

  /** A run renders its frames in strictly increasing calendar order, so none twice. */
  lemma {:induction false} PlannedIncreasing(start: int, end: int, i: int, j: int)
    requires start <= end && 0 <= i < j < 12 * (end - start)
    ensures |Planned(start, end)| == 12 * (end - start)
    ensures Before(Planned(start, end)[i], Planned(start, end)[j])
  {
    PlannedAt(start, end);
    assert i == 12 * (i / 12) + i % 12 && j == 12 * (j / 12) + j % 12;
  }

  /**
   * Frame `k` of a run is month k % 12 + 1 of year start + k / 12, and reads
   * time index TimeIndex(start, 0) + k: the frames read consecutive indices.
   */
  lemma {:induction false} PlannedTimeIndex(start: int, end: int, k: int)
    requires start <= end && 0 <= k < 12 * (end - start)
    ensures |Planned(start, end)| == 12 * (end - start)
    ensures Planned(start, end)[k] == Frame(start + k / 12, k % 12 + 1)
    ensures TimeIndex(start + k / 12, k % 12) == TimeIndex(start, 0) + k
  {
    PlannedAt(start, end);
    assert k == 12 * (k / 12) + k % 12;
  }

  lemma {:induction false} PlannedSplit(start: int, mid: int, end: int)
    requires start <= mid <= end
    ensures Planned(start, end) == Planned(start, mid) + Planned(mid, end)
    decreases end - mid
  {
    if mid < end {
      PlannedSplit(start, mid, end - 1);
      var y := YearFrames(end - 1);
      assert Planned(start, end) == Planned(start, end - 1) + y;
      assert Planned(mid, end) == Planned(mid, end - 1) + y;
      assert Planned(start, mid) + Planned(mid, end - 1) + y == Planned(start, mid) + (Planned(mid, end - 1) + y);
    } else {
      assert Planned(mid, end) == [];
    }
  }

  // ---------------------------------------------------------------------------
  // Rendering a sequence of frames up to the first failed lookup

  /** Number of leading frames whose slice can be read; the first failed lookup stops the run. */
  function ReadablePrefix(frames: seq<Frame>, n: nat): (r: nat)
    ensures r <= |frames|
    ensures forall k :: 0 <= k < r ==> Readable(frames[k], n)
    ensures r < |frames| ==> !Readable(frames[r], n)
  {
    if frames == [] || !Readable(frames[0], n) then 0 else 1 + ReadablePrefix(frames[1..], n)
  }

  /** The readable prefix is pinned down by its first unreadable frame. */
  lemma {:induction false} PrefixIs(frames: seq<Frame>, n: nat, p: nat)
    requires p <= |frames|
    requires forall k :: 0 <= k < p ==> Readable(frames[k], n)
    requires p < |frames| ==> !Readable(frames[p], n)
    ensures ReadablePrefix(frames, n) == p
    decreases |frames|
  {
    if p > 0 {
      PrefixIs(frames[1..], n, p - 1);
    }
  }

  /** The images saved while rendering `frames` in order, up to the first failed lookup. */
  function Images(frames: seq<Frame>, data: Variable, lo: int, hi: int): (r: seq<Image>)
    ensures |r| == ReadablePrefix(frames, |data|)
  {
    if frames == [] || !Readable(frames[0], |data|) then []
    else [RenderFrame(frames[0], data, lo, hi)] + Images(frames[1..], data, lo, hi)
  }

  /** Image `k` of a run is the rendering of its frame `k`. */
  lemma {:induction false} ImagesAt(frames: seq<Frame>, data: Variable, lo: int, hi: int, k: int)
    requires 0 <= k < ReadablePrefix(frames, |data|)
    ensures Readable(frames[k], |data|)
    ensures Images(frames, data, lo, hi)[k] == RenderFrame(frames[k], data, lo, hi)
    decreases k
  {
    assert frames != [] && Readable(frames[0], |data|);
    var rest := Images(frames[1..], data, lo, hi);
    assert Images(frames, data, lo, hi) == [RenderFrame(frames[0], data, lo, hi)] + rest;
    if k > 0 {
      assert ReadablePrefix(frames, |data|) == 1 + ReadablePrefix(frames[1..], |data|);
      ImagesAt(frames[1..], data, lo, hi, k - 1);
      assert frames[1..][k - 1] == frames[k];
    }
  }

  /** Number of frames a run attempts: those it renders, plus the one whose lookup fails. */
  function Attempted(frames: seq<Frame>, n: nat): nat
  {
    if ReadablePrefix(frames, n) < |frames| then ReadablePrefix(frames, n) + 1 else |frames|
  }

  /** The progress line printed before frame `f` is rendered. */
  function Announce(f: Frame): string
  {
    ProgressLine(f.year, f.month)
  }

  /**
   * The progress lines printed while rendering `frames`: one per frame
   * attempted, including the frame whose lookup fails.
   */
  function Progress(frames: seq<Frame>, n: nat): (r: seq<string>)
    ensures |r| == Attempted(frames, n)
  {
    if frames == [] then []
    else if Readable(frames[0], n) then [Announce(frames[0])] + Progress(frames[1..], n)
    else [Announce(frames[0])]
  }

  /** Progress line `k` of a run announces its frame `k`. */
  lemma {:induction false} ProgressAt(frames: seq<Frame>, n: nat, k: int)
    requires 0 <= k < |Progress(frames, n)|
    ensures k < |frames| && Progress(frames, n)[k] == Announce(frames[k])
    decreases k
  {
    if k > 0 {
      ProgressAt(frames[1..], n, k - 1);
    }
  }

  /** Reading `a + b` gets past `a` only if every frame of `a` can be read. */
  lemma {:induction false} PrefixAppend(a: seq<Frame>, b: seq<Frame>, n: nat)
    ensures ReadablePrefix(a + b, n) ==
              if ReadablePrefix(a, n) == |a| then |a| + ReadablePrefix(b, n) else ReadablePrefix(a, n)
  {
    if a != [] {
      PrefixAppend(a[1..], b, n);
      assert (a + b)[1..] == a[1..] + b;
      assert (a + b)[0] == a[0];
    } else {
      assert a + b == b;
    }
  }

  /** Rendering `a + b` saves the images of `a`, then those of `b` only if every frame of `a` could be read. */
  lemma {:induction false} ImagesAppend(a: seq<Frame>, b: seq<Frame>, data: Variable, lo: int, hi: int)
    ensures Images(a + b, data, lo, hi) ==
              if ReadablePrefix(a, |data|) == |a| then Images(a, data, lo, hi) + Images(b, data, lo, hi)
              else Images(a, data, lo, hi)
    decreases |a|
  {
    if a == [] {
      assert a + b == b;
    } else {
      assert (a + b)[0] == a[0] && (a + b)[1..] == a[1..] + b;
      if Readable(a[0], |data|) {
        ImagesAppend(a[1..], b, data, lo, hi);
        var head := [RenderFrame(a[0], data, lo, hi)];
        AppendAssoc(head, Images(a[1..], data, lo, hi), Images(b, data, lo, hi));
      }
    }
  }

  /** Rendering `a + b` prints the progress lines of `a`, then those of `b` only if every frame of `a` could be read. */
  lemma {:induction false} ProgressAppend(a: seq<Frame>, b: seq<Frame>, n: nat)
    ensures Progress(a + b, n) ==
              if ReadablePrefix(a, n) == |a| then Progress(a, n) + Progress(b, n) else Progress(a, n)
    decreases |a|
  {
    if a == [] {
      assert a + b == b;
    } else {
      assert (a + b)[0] == a[0] && (a + b)[1..] == a[1..] + b;
      if Readable(a[0], n) {
        ProgressAppend(a[1..], b, n);
        AppendAssoc([Announce(a[0])], Progress(a[1..], n), Progress(b, n));
      }
    }
  }

  // ---------------------------------------------------------------------------
  // One step of the month loop and of the year loop

  lemma {:induction false} TakeOneMore<T>(s: seq<T>, y: int)
    requires 0 <= y < |s|
    ensures s[..y + 1] == s[..y] + [s[y]]
  {
  }

  lemma {:induction false} TakeAll<T>(s: seq<T>)
    ensures s[..|s|] == s
  {
  }

  lemma {:induction false} AppendAssoc<T>(a: seq<T>, b: seq<T>, c: seq<T>)
    ensures a + b + c == a + (b + c)
  {
  }

  lemma {:induction false} AppendOneMore<T>(a: seq<T>, s: seq<T>, y: int, x: T)
    requires 0 <= y < |s| && s[y] == x
    ensures a + s[..y] + [x] == a + s[..y + 1]
  {
    TakeOneMore(s, y);
  }

  lemma {:induction false} AppendImage(a: seq<Image>, s: seq<Image>, y: int, x: Image)
    requires 0 <= y < |s| && s[y] == x
    ensures a + s[..y] + [x] == a + s[..y + 1]
  {
    TakeOneMore(s, y);
  }

  /** Month `y + 1` of `year` is frame `y` of the year, and reads time index TimeIndex(year, 0) + y. */
  lemma {:induction false} MonthFrame(year: int, y: int)
    requires 0 <= y < 12
    ensures YearFrames(year)[y] == Frame(year, y + 1)
    ensures TimeIndex(year, y) == TimeIndex(year, 0) + y
  {
  }

  /** The image saved for frame `k` of a run, spelled out. */
  lemma {:induction false} ImageAt(frames: seq<Frame>, data: Variable, lo: int, hi: int, k: int, year: int, month: int, t: int)
    requires 0 <= k < ReadablePrefix(frames, |data|)
    requires frames[k] == Frame(year, month) && TimeIndex(year, month - 1) == t
    ensures PyIndex(t, |data|).Some?
    ensures Images(frames, data, lo, hi)[k] == Plot(year, month, t, data, lo, hi)
  {
    ImagesAt(frames, data, lo, hi, k);
  }

  /** Month `y` of `year` can be read: the readable prefix of the year goes past it. */
  lemma {:induction false} MonthReadable(year: int, n: nat, y: int)
    requires 0 <= y < 12 && ReadablePrefix(YearFrames(year), n) >= y
    requires PyIndex(TimeIndex(year, 0) + y, n).Some?
    ensures ReadablePrefix(YearFrames(year), n) > y
  {
    MonthFrame(year, y);
    assert Readable(YearFrames(year)[y], n);
  }

  /**
   * Appending the image of month `y + 1` to what was saved before the year
   * and the images of its earlier months gives the first y + 1 images of the year.
   */
  lemma {:induction false} MonthSaved(year: int, data: Variable, lo: int, hi: int, y: int, saved: seq<Image>)
    requires 0 <= y < 12 && ReadablePrefix(YearFrames(year), |data|) > y
    requires PyIndex(TimeIndex(year, 0) + y, |data|).Some?
    ensures var images := Images(YearFrames(year), data, lo, hi);
      saved + images[..y] + [Plot(year, y + 1, TimeIndex(year, 0) + y, data, lo, hi)] == saved + images[..y + 1]
  {
    var images := Images(YearFrames(year), data, lo, hi);
    var image := Plot(year, y + 1, TimeIndex(year, 0) + y, data, lo, hi);
    assert y < |images| && images[y] == image by {
      MonthFrame(year, y);
      ImageAt(YearFrames(year), data, lo, hi, y, year, y + 1, TimeIndex(year, 0) + y);
    }
    AppendImage(saved, images, y, image);
  }

  /**
   * Appending the progress line of month `y + 1` to what was printed before
   * the year and the lines of its earlier months gives its first y + 1 lines.
   */
  lemma {:induction false} MonthPrinted(year: int, n: nat, y: int, printed: seq<string>)
    requires 0 <= y < 12 && ReadablePrefix(YearFrames(year), n) >= y
    ensures var lines := Progress(YearFrames(year), n);
      y < |lines| && printed + lines[..y] + [ProgressLine(year, y + 1)] == printed + lines[..y + 1]
  {
    MonthFrame(year, y);
    var lines := Progress(YearFrames(year), n);
    ProgressAt(YearFrames(year), n, y);
    AppendOneMore(printed, lines, y, ProgressLine(year, y + 1));
  }

  /**
   * Month `y` of `year` cannot be read: the year saves only its earlier
   * months, and the progress line of month y is its last.
   */
  lemma {:induction false} MonthFailed(year: int, data: Variable, lo: int, hi: int, y: int, saved: seq<Image>, printed: seq<string>)
    requires 0 <= y < 12 && ReadablePrefix(YearFrames(year), |data|) >= y
    requires PyIndex(TimeIndex(year, 0) + y, |data|).None?
    ensures ReadablePrefix(YearFrames(year), |data|) == y
    ensures saved + Images(YearFrames(year), data, lo, hi)[..y] == saved + Images(YearFrames(year), data, lo, hi)
    ensures var lines := Progress(YearFrames(year), |data|);
      printed + lines[..y] + [ProgressLine(year, y + 1)] == printed + lines
  {
    var frames := YearFrames(year);
    MonthFrame(year, y);
    PrefixIs(frames, |data|, y);
    MonthPrinted(year, |data|, y, printed);
    TakeAll(Images(frames, data, lo, hi));
    TakeAll(Progress(frames, |data|));
  }

  lemma {:induction false} PlannedNext(start: int, year: int)
    requires start <= year
    ensures Planned(start, year + 1) == Planned(start, year) + YearFrames(year)
  {
  }

  /** Rendering `a + b` where every frame of `a` can be read: the run goes on into `b`. */
  lemma {:induction false} ReadAppend(a: seq<Frame>, b: seq<Frame>, data: Variable, lo: int, hi: int)
    requires ReadablePrefix(a, |data|) == |a|
    ensures ReadablePrefix(a + b, |data|) == |a| + ReadablePrefix(b, |data|)
    ensures Images(a + b, data, lo, hi) == Images(a, data, lo, hi) + Images(b, data, lo, hi)
    ensures Progress(a + b, |data|) == Progress(a, |data|) + Progress(b, |data|)
  {
    PrefixAppend(a, b, |data|);
    ImagesAppend(a, b, data, lo, hi);
    ProgressAppend(a, b, |data|);
  }

  /**
   * A year all of whose months were read extends the images and progress
   * lines of the years before it: `saved` and `printed` are what the run has
   * saved and printed before the year, `written` and `shown` after it.
   */
  lemma {:induction false} YearRead(start: int, year: int, data: Variable, error: Option<PyError>,
                 saved: seq<Image>, printed: seq<string>, written: seq<Image>, shown: seq<string>)
    requires start <= year
    requires ReadablePrefix(Planned(start, year), |data|) == |Planned(start, year)|
    requires saved == Images(Planned(start, year), data, VarMin(data), VarMax(data))
    requires printed == Progress(Planned(start, year), |data|)
    requires |Flatten(data)| == 0 ==> error == Some(ValueError)
    requires |Flatten(data)| > 0 ==>
      && written == saved + Images(YearFrames(year), data, VarMin(data), VarMax(data))
      && shown == printed + Progress(YearFrames(year), |data|)
      && (error == if ReadablePrefix(YearFrames(year), |data|) == 12 then None else Some(IndexError))
    requires error == None
    ensures ReadablePrefix(Planned(start, year + 1), |data|) == |Planned(start, year + 1)|
    ensures written == Images(Planned(start, year + 1), data, VarMin(data), VarMax(data))
    ensures shown == Progress(Planned(start, year + 1), |data|)
  {
    assert |Flatten(data)| > 0;
    assert ReadablePrefix(YearFrames(year), |data|) == 12;
    PlannedNext(start, year);
    ReadAppend(Planned(start, year), YearFrames(year), data, VarMin(data), VarMax(data));
  }

  /** Rendering `a + b` where some frame of `a` cannot be read: the run stops inside `a`. */
  lemma {:induction false} StopAppend(a: seq<Frame>, b: seq<Frame>, data: Variable, lo: int, hi: int)
    requires ReadablePrefix(a, |data|) < |a|
    ensures ReadablePrefix(a + b, |data|) == ReadablePrefix(a, |data|)
    ensures Images(a + b, data, lo, hi) == Images(a, data, lo, hi)
    ensures Progress(a + b, |data|) == Progress(a, |data|)
  {
    PrefixAppend(a, b, |data|);
    ImagesAppend(a, b, data, lo, hi);
    ProgressAppend(a, b, |data|);
  }

  /**
   * A year that raised ends the run: `saved` and `printed` are what the run
   * had saved and printed before the year, `written` and `shown` after it.
   * With no values in the variable the first year raised ValueError before
   * any output; otherwise a lookup failed, and what was written is all the
   * whole run would write.
   */
  lemma {:induction false} YearFailed(start: int, year: int, end: int, data: Variable, error: Option<PyError>,
                                      saved: seq<Image>, printed: seq<string>, written: seq<Image>, shown: seq<string>)
    requires start <= year < end
    requires |Flatten(data)| == 0 ==> year == start
    requires ReadablePrefix(Planned(start, year), |data|) == |Planned(start, year)|
    requires saved == Images(Planned(start, year), data, VarMin(data), VarMax(data))
    requires printed == Progress(Planned(start, year), |data|)
    requires |Flatten(data)| == 0 ==> error == Some(ValueError) && written == saved && shown == printed
    requires |Flatten(data)| > 0 ==>
      && written == saved + Images(YearFrames(year), data, VarMin(data), VarMax(data))
      && shown == printed + Progress(YearFrames(year), |data|)
      && (error == if ReadablePrefix(YearFrames(year), |data|) == 12 then None else Some(IndexError))
    requires error.Some?
    ensures |Flatten(data)| == 0 ==> error == Some(ValueError) && written == [] && shown == []
    ensures |Flatten(data)| > 0 ==>
      var frames := Planned(start, end);
      && written == Images(frames, data, VarMin(data), VarMax(data))
      && shown == Progress(frames, |data|)
      && (error == if ReadablePrefix(frames, |data|) == |frames| then None else Some(IndexError))
  {
    if |Flatten(data)| == 0 {
      assert Planned(start, year) == [];
    } else {
      assert ReadablePrefix(YearFrames(year), |data|) < 12;
      var lo, hi := VarMin(data), VarMax(data);
      var before, now := Planned(start, year), YearFrames(year);
      PlannedNext(start, year);
      PrefixAppend(before, now, |data|);
      ReadAppend(before, now, data, lo, hi);
      PlannedSplit(start, year + 1, end);
      StopAppend(Planned(start, year + 1), Planned(year + 1, end), data, lo, hi);
    }
  }

  // ---------------------------------------------------------------------------
  // A whole run

  /**
   * Everything a run with arguments `start`, `end` on `data` makes observable:
   * a failed check writes its message and exits with 1 before the dataset is
   * opened; otherwise the frames are rendered with one colour range over the
   * whole variable, until a lookup fails.
   */
  function Outcome(start: int, end: int, data: Variable): Transcript
  {
    match Validate(start, end)
    case Some(c) => Transcript(false, [], [Message(c)], [], Exited(1))
    case None =>
      var flat := Flatten(data);
      if |flat| == 0 then Transcript(true, [], [], [], Raised(ValueError))
      else
        var frames := Planned(start, end);
        Transcript(true, Progress(frames, |data|), [],
                   Images(frames, data, MinOf(flat), MaxOf(flat)),
                   if ReadablePrefix(frames, |data|) == |frames| then Exited(0) else Raised(IndexError))
  }

  /** Rejected arguments: the message of the first failing check, status 1, no dataset, no output. */
  lemma {:induction false} RejectedRun(start: int, end: int, data: Variable)
    requires !Supported(start, end)
    ensures var o := Outcome(start, end, data);
      && !o.datasetOpened && o.written == [] && o.stdout == []
      && ExitStatus(o.termination) == 1
      && exists c :: o.stderr == [Message(c)] && Validate(start, end) == Some(c)
  {
    var c := Validate(start, end).value;
    assert Outcome(start, end, data).stderr == [Message(c)];
  }

  /** Accepted arguments on a variable without values: `.min()` raises before any image. */
  lemma {:induction false} EmptyVariableRun(start: int, end: int, data: Variable)
    requires Supported(start, end)
    requires forall t, i :: 0 <= t < |data| && 0 <= i < |data[t]| ==> |data[t][i]| == 0
    ensures var o := Outcome(start, end, data);
      o.datasetOpened && o.written == [] && o.stdout == [] && o.stderr == [] && o.termination == Raised(ValueError)
  {
    FlattenEmpty(data);
  }

  /**
   * `img` is the image of month `month` of `year`, read from time index `t`
   * (which lies in [0, 288)): its title and file name are the month's, its
   * row r is row nlat - 1 - r of the slice at `t`, and its colour range is
   * that of the whole variable.
   */
  ghost predicate ShowsFrame(data: Variable, year: int, month: int, t: int, img: Image)
    requires |Flatten(data)| > 0
  {
    && img.fileName == FileName(year, month)
    && img.title == Title(year, month)
    && img.timeIndex == t
    && 0 <= t < 288
    && t < |data|
    && |img.pixels| == |data[t]|
    && (forall r :: 0 <= r < |img.pixels| ==> img.pixels[r] == data[t][|data[t]| - 1 - r])
    && img.vmin == MinOf(Flatten(data)) && img.vmax == MaxOf(Flatten(data))
  }

  /**
   * Image `k` of a run whose every time index exists is month k % 12 + 1 of
   * year start + k / 12, read from time index TimeIndex(start, 0) + k.
   */
  lemma {:induction false} CompleteRunAt(start: int, end: int, data: Variable, k: int)
    requires Supported(start, end)
    requires |Flatten(data)| > 0 && |data| >= TimeIndex(end, 0)
    requires ReadablePrefix(Planned(start, end), |data|) == |Planned(start, end)|
    requires 0 <= k < 12 * (end - start)
    ensures |Planned(start, end)| == 12 * (end - start)
    ensures ShowsFrame(data, start + k / 12, k % 12 + 1, TimeIndex(start, 0) + k,
                       Images(Planned(start, end), data, MinOf(Flatten(data)), MaxOf(Flatten(data)))[k])
  {
    var frames := Planned(start, end);
    var year, month, t := start + k / 12, k % 12 + 1, TimeIndex(start, 0) + k;
    assert && |frames| == 12 * (end - start) && k < ReadablePrefix(frames, |data|)
           && frames[k] == Frame(year, month) && TimeIndex(year, month - 1) == t && 0 <= t < 288 by {
      PlannedTimeIndex(start, end, k);
    }
    FrameShown(frames, data, k, year, month, t);
  }

  /** Image `k` of `frames` shows month `month` of `year` from index `t`, if that is frame `k`. */
  lemma {:induction false} FrameShown(frames: seq<Frame>, data: Variable, k: int, year: int, month: int, t: int)
    requires |Flatten(data)| > 0
    requires 0 <= k < ReadablePrefix(frames, |data|)
    requires frames[k] == Frame(year, month) && TimeIndex(year, month - 1) == t
    requires 0 <= t < 288
    ensures ShowsFrame(data, year, month, t, Images(frames, data, MinOf(Flatten(data)), MaxOf(Flatten(data)))[k])
  {
    var lo, hi := MinOf(Flatten(data)), MaxOf(Flatten(data));
    ImageAt(frames, data, lo, hi, k, year, month, t);
    PlotShowsFrame(data, year, month, t, Images(frames, data, lo, hi)[k]);
  }

  /** The image `Plot` builds from a month and a non-negative index shows that month. */
  lemma {:induction false} PlotShowsFrame(data: Variable, year: int, month: int, t: int, img: Image)
    requires |Flatten(data)| > 0
    requires 0 <= t < 288 && t < |data|
    requires img == Plot(year, month, t, data, MinOf(Flatten(data)), MaxOf(Flatten(data)))
    ensures ShowsFrame(data, year, month, t, img)
  {
    forall r | 0 <= r < |img.pixels|
      ensures img.pixels[r] == data[t][|data[t]| - 1 - r]
    {
      FlipRowsAt(data[t], r);
    }
  }

  /**
   * Accepted arguments on a variable that holds values and covers every time
   * index of the run: 12 * (end - start) images, image k showing frame k as
   * ShowsFrame states; status 0.
   */
  lemma {:induction false} CompleteRun(start: int, end: int, data: Variable)
    requires Supported(start, end)
    requires |Flatten(data)| > 0 && |data| >= TimeIndex(end, 0)
    ensures var o := Outcome(start, end, data);
      && o.datasetOpened && o.stderr == [] && o.termination == Exited(0)
      && |o.written| == 12 * (end - start) && |o.stdout| == 12 * (end - start)
      && forall k :: 0 <= k < |o.written| ==>
           ShowsFrame(data, start + k / 12, k % 12 + 1, TimeIndex(start, 0) + k, o.written[k])
  {
    var frames := Planned(start, end);
    var o := Outcome(start, end, data);
    PlannedAt(start, end);
    forall k | 0 <= k < |frames|
      ensures Readable(frames[k], |data|)
    {
      PlannedTimeIndex(start, end, k);
    }
    PrefixIs(frames, |data|, |frames|);
    forall k | 0 <= k < |o.written|
      ensures ShowsFrame(data, start + k / 12, k % 12 + 1, TimeIndex(start, 0) + k, o.written[k])
    {
      CompleteRunAt(start, end, data, k);
    }
  }

  /**
   * Accepted arguments on a variable that holds values but ends before the
   * run's last time index: the frames whose index exists are saved, the next
   * one prints its progress line and raises IndexError.
   */
  lemma {:induction false} TruncatedRun(start: int, end: int, data: Variable)
    requires Supported(start, end)
    requires |Flatten(data)| > 0 && |data| < TimeIndex(end, 0)
    ensures var o := Outcome(start, end, data);
      && o.datasetOpened && o.stderr == [] && o.termination == Raised(IndexError)
      && |o.written| == (if |data| <= TimeIndex(start, 0) then 0 else |data| - TimeIndex(start, 0))
      && |o.stdout| == |o.written| + 1
  {
    var frames := Planned(start, end);
    var n := |data|;
    var base := TimeIndex(start, 0);
    var want := if n <= base then 0 else n - base;
    PlannedAt(start, end);
    forall k | 0 <= k < |frames|
      ensures Readable(frames[k], n) <==> k < want
    {
      PlannedTimeIndex(start, end, k);
    }
    PrefixIs(frames, n, want);
  }

  /** Every value of a saved image lies in the colour range of the whole variable. */
  lemma {:induction false} RenderWithinScale(f: Frame, data: Variable)
    requires Readable(f, |data|) && |Flatten(data)| > 0
    ensures var img := RenderFrame(f, data, MinOf(Flatten(data)), MaxOf(Flatten(data)));
      forall r, c :: 0 <= r < |img.pixels| && 0 <= c < |img.pixels[r]| ==>
        img.vmin <= img.pixels[r][c] <= img.vmax
  {
    var t := TimeIndex(f.year, f.month - 1);
    var i := PyIndex(t, |data|).value;
    var img := RenderFrame(f, data, MinOf(Flatten(data)), MaxOf(Flatten(data)));
    assert img == Plot(f.year, f.month, t, data, MinOf(Flatten(data)), MaxOf(Flatten(data)));
    assert img.pixels == FlipRows(data[i]);
    FlippedWithinRange(data, i);
  }

  /**
   * Every image of a run uses the same colour range, the minimum and maximum
   * of the whole variable, and its values lie inside that range.
   */
  lemma {:induction false} RunColourScale(start: int, end: int, data: Variable, k: int)
    requires 0 <= k < |Outcome(start, end, data).written|
    ensures |Flatten(data)| > 0
    ensures var img := Outcome(start, end, data).written[k];
      && img.vmin == MinOf(Flatten(data)) && img.vmax == MaxOf(Flatten(data))
      && img.vmin <= img.vmax
      && forall r, c :: 0 <= r < |img.pixels| && 0 <= c < |img.pixels[r]| ==>
           img.vmin <= img.pixels[r][c] <= img.vmax
  {
    var frames := Planned(start, end);
    ImagesAt(frames, data, MinOf(Flatten(data)), MaxOf(Flatten(data)), k);
    RenderWithinScale(frames[k], data);
  }

  /** The files of any run have pairwise distinct names, so no image overwrites another. */
  lemma {:induction false} RunFileNamesDistinct(start: int, end: int, data: Variable, i: int, j: int)
    requires 0 <= i < j < |Outcome(start, end, data).written|
    ensures Outcome(start, end, data).written[i].fileName != Outcome(start, end, data).written[j].fileName
  {
    var o := Outcome(start, end, data);
    assert Supported(start, end) && |Flatten(data)| > 0;
    var frames := Planned(start, end);
    var lo, hi := MinOf(Flatten(data)), MaxOf(Flatten(data));
    PlannedAt(start, end);
    PlannedIncreasing(start, end, i, j);
    ImagesAt(frames, data, lo, hi, i);
    ImagesAt(frames, data, lo, hi, j);
    var f, g := frames[i], frames[j];
    if o.written[i].fileName == o.written[j].fileName {
      FileNameInjective(f.year, f.month, g.year, g.month);
    }
  }
}
