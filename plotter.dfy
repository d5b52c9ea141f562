/**
 * The renderer as the script runs it: `get_year` and the entry point's
 * checks and year loop (code/plot_tempanomaly.py, lines 12-32 and 47-71).
 * The plotting surface and the files it saves are abstracted to a log of
 * saved images; standard output and standard error are logs of text.
 */
module Plotter {
  import opened Outcomes
  import opened Validation
  import opened Naming
  import opened Slices
  import opened Schedule

  class Renderer {
    /** Whether `nc.Dataset` has been called. */
    var datasetOpened: bool
    /** Text printed to standard output, one progress line per entry. */
    var stdout: seq<string>
    /** Text written to standard error. */
    var stderr: seq<string>
    /** Image files saved by `savefig`, in order. */
    var written: seq<Image>

    /** The state of a process that has not done anything yet. */
    ghost predicate Idle()
      reads this
    {
      !datasetOpened && stdout == [] && stderr == [] && written == []
    }

    /** What the process has made observable, if it ends with `t`. */
    function Snapshot(t: Termination): Transcript
      reads this
    {
      Transcript(datasetOpened, stdout, stderr, written, t)
    }

    constructor ()
      ensures Idle()
    {
      datasetOpened, stdout, stderr, written := false, [], [], [];
    }

    /**
     * `get_year(year, data)`: computes the colour range of the whole variable,
     * then for each month prints a progress line, reads the flipped slice and
     * saves an image. Returns the exception that ends it, if any.
     */
    method GetYear(year: int, data: Variable) returns (error: Option<PyError>)
      modifies this`stdout, this`written
      ensures |Flatten(data)| == 0 ==>
        error == Some(ValueError) && written == old(written) && stdout == old(stdout)
      ensures |Flatten(data)| > 0 ==>
        && written == old(written) + Images(YearFrames(year), data, VarMin(data), VarMax(data))
        && stdout == old(stdout) + Progress(YearFrames(year), |data|)
        && (error == if ReadablePrefix(YearFrames(year), |data|) == 12 then None else Some(IndexError))
    {
      var flat := Flatten(data);
      if |flat| == 0 {
        return Some(ValueError);
      }
      var lo, hi := MinOf(flat), MaxOf(flat);
      assert lo == VarMin(data) && hi == VarMax(data);
      ghost var images := Images(YearFrames(year), data, lo, hi);
      ghost var lines := Progress(YearFrames(year), |data|);
      var y := 0;
      while y < 12
        invariant 0 <= y <= 12
        invariant ReadablePrefix(YearFrames(year), |data|) >= y
        invariant written == old(written) + images[..y]
        invariant stdout == old(stdout) + lines[..y]
      {
        var read := Month(year, data, lo, hi, y, old(written), old(stdout));
        if !read {
          return Some(IndexError);
        }
        y := y + 1;
      }
      TakeAll(images);
      TakeAll(lines);
      return None;
    }

    /**
     * One pass of the month loop of `get_year`: prints the progress line of
     * month `y + 1`, then reads its slice and saves the image, unless the
     * lookup raises IndexError; `read` says whether it did not.
     */
    method Month(year: int, data: Variable, lo: int, hi: int, y: int, ghost saved: seq<Image>, ghost printed: seq<string>)
      returns (read: bool)
      modifies this`stdout, this`written
      requires 0 <= y < 12 && ReadablePrefix(YearFrames(year), |data|) >= y
      requires written == saved + Images(YearFrames(year), data, lo, hi)[..y]
      requires stdout == printed + Progress(YearFrames(year), |data|)[..y]
      ensures read ==>
        && ReadablePrefix(YearFrames(year), |data|) >= y + 1
        && written == saved + Images(YearFrames(year), data, lo, hi)[..y + 1]
        && stdout == printed + Progress(YearFrames(year), |data|)[..y + 1]
      ensures !read ==>
        && ReadablePrefix(YearFrames(year), |data|) == y
        && written == saved + Images(YearFrames(year), data, lo, hi)
        && stdout == printed + Progress(YearFrames(year), |data|)
    {
      stdout := stdout + [ProgressLine(year, y + 1)];
      var i := PyIndex(TimeIndex(year, 0) + y, |data|);
      if i.None? {
        MonthFailed(year, data, lo, hi, y, saved, printed);
        return false;
      }
      MonthReadable(year, |data|, y);
      MonthSaved(year, data, lo, hi, y, saved);
      MonthPrinted(year, |data|, y, printed);
      written := written + [Plot(year, y + 1, TimeIndex(year, 0) + y, data, lo, hi)];
      return true;
    }

    /**
     * One pass of the year loop: `get_year(year, data)` on top of the output of
     * the years before it. If it returns normally the output covers the years
     * up to `year`; if it raises, the output is that of the whole run.
     */
    method Year(start: int, year: int, next: int, end: int, data: Variable) returns (error: Option<PyError>)
      requires start <= year < end && next == year + 1
      requires |Flatten(data)| == 0 ==> year == start
      requires ReadablePrefix(Planned(start, year), |data|) == |Planned(start, year)|
      requires written == Images(Planned(start, year), data, VarMin(data), VarMax(data))
      requires stdout == Progress(Planned(start, year), |data|)
      modifies this`stdout, this`written
      ensures error.None? ==>
        && ReadablePrefix(Planned(start, next), |data|) == |Planned(start, next)|
        && written == Images(Planned(start, next), data, VarMin(data), VarMax(data))
        && stdout == Progress(Planned(start, next), |data|)
      ensures |Flatten(data)| == 0 ==> error == Some(ValueError) && written == [] && stdout == []
      ensures error.Some? && |Flatten(data)| > 0 ==>
        var frames := Planned(start, end);
        && written == Images(frames, data, VarMin(data), VarMax(data))
        && stdout == Progress(frames, |data|)
        && (error == if ReadablePrefix(frames, |data|) == |frames| then None else Some(IndexError))
    {
      ghost var saved, printed := written, stdout;
      error := GetYear(year, data);
      if error.Some? {
        YearFailed(start, year, end, data, error, saved, printed, written, stdout);
        return;
      }
      YearRead(start, year, data, error, saved, printed, written, stdout);
    }

    /**
     * The year loop of the entry point, on an opened dataset: `get_year` for
     * each year of [start, end) until one of them raises.
     */
    method Years(start: int, end: int, data: Variable) returns (error: Option<PyError>)
      requires start < end
      requires written == [] && stdout == []
      modifies this`stdout, this`written
      ensures |Flatten(data)| == 0 ==> error == Some(ValueError) && written == [] && stdout == []
      ensures |Flatten(data)| > 0 ==>
        var frames := Planned(start, end);
        && written == Images(frames, data, VarMin(data), VarMax(data))
        && stdout == Progress(frames, |data|)
        && (error == if ReadablePrefix(frames, |data|) == |frames| then None else Some(IndexError))
    {
      ghost var flat := Flatten(data);
      var year := start;
      while year < end
        invariant start <= year <= end
        invariant |flat| == 0 ==> year == start
        invariant ReadablePrefix(Planned(start, year), |data|) == |Planned(start, year)|
        invariant written == Images(Planned(start, year), data, VarMin(data), VarMax(data))
        invariant stdout == Progress(Planned(start, year), |data|)
      {
        var next := year + 1;
        error := Year(start, year, next, end, data);
        if error.Some? {
          return;
        }
        year := next;
      }
      return None;
    }

    /**
     * The entry point on already parsed arguments: the validation chain, then
     * opening the dataset, then the year loop.
     */
    method Run(start: int, end: int, data: Variable) returns (t: Termination)
      requires Idle()
      modifies this
      ensures Snapshot(t) == Outcome(start, end, data)
    {
      var check := Validate(start, end);
      if check.Some? {
        stderr := stderr + [Message(check.value)];
        return Exited(1);
      }
      datasetOpened := true;
      var error := Years(start, end, data);
      t := if error.Some? then Raised(error.value) else Exited(0);
    }
  }
}
