/** `make_path_absolute` (src/utils.rs:46-53) over Unix path strings.

    The current directory is a parameter: `std::env::current_dir()` either
    yields a path or fails, and it is consulted only for relative paths. */
module Paths {
  import opened Results
  import Text

  const Separator: char := '/'

  /** `std::env::current_dir()` failed. */
  datatype IoError = CurrentDirUnavailable

  /** `Path::is_absolute` on Unix: the path starts at the root. */
  predicate IsAbsolute(p: string)
    ensures IsAbsolute(p) <==> p != "" && Text.Split(p, {Separator})[0] == ""
  {
    |p| > 0 && p[0] == Separator
  }

  /** The non-empty segments of a path, in order. */
  function Segments(p: string): seq<string> {
    Text.Words(p, {Separator})
  }

  /** `base.join(p)` on Unix (`PathBuf::push`): an absolute `p` replaces the
      base; a relative one is appended, with one separator put in between
      unless the base is empty or already ends with a separator. */
  function JoinPath(base: string, p: string): (r: string)
    ensures IsAbsolute(p) ==> r == p
    ensures !IsAbsolute(p) ==> |r| >= |base| + |p| && r[..|base|] == base && r[|r| - |p|..] == p
    ensures !IsAbsolute(p) ==> |r| <= |base| + |p| + 1
    ensures !IsAbsolute(p) && |base| > 0 && base[|base| - 1] != Separator ==>
      |r| == |base| + 1 + |p| && r[|base|] == Separator
    ensures !IsAbsolute(p) && (|base| == 0 || base[|base| - 1] == Separator) ==> r == base + p
  {
    if IsAbsolute(p) then p
    else if |base| > 0 && base[|base| - 1] != Separator then base + [Separator] + p
    else base + p
  }

  /** Joining a relative path appends its segments to those of the base. */
  lemma JoinPathSegments(base: string, p: string)
    requires !IsAbsolute(p)
    ensures Segments(JoinPath(base, p)) == Segments(base) + Segments(p)
  {
    var seps := {Separator};
    if |base| == 0 {
      assert base + p == p;
      assert Text.Split(base, seps) == [""];
    } else if base[|base| - 1] != Separator {
      Text.SplitAroundSeparator(base, Separator, p, seps);
      Text.NonEmptyAppend(Text.Split(base, seps), Text.Split(p, seps));
    } else {
      var front := base[..|base| - 1];
      assert base == front + [Separator];
      assert base + p == front + [Separator] + p;
      Text.SplitAroundSeparator(front, Separator, p, seps);
      Text.SplitAroundSeparator(front, Separator, "", seps);
      assert front + [Separator] + "" == base;
      assert Text.Split("", seps) == [""];
      Text.NonEmptyAppend(Text.Split(front, seps), Text.Split(p, seps));
      Text.NonEmptyAppend(Text.Split(front, seps), [""]);
    }
  }

  /** `make_path_absolute`: an absolute path is returned as it is, without
      asking for the current directory; a relative one is joined onto the
      current directory, and fails when that cannot be determined. */
  function MakePathAbsolute(p: string, cwd: Result<string, IoError>): (r: Result<string, IoError>)
    ensures IsAbsolute(p) ==> r == Ok(p)
    ensures !IsAbsolute(p) ==> (r.Ok? <==> cwd.Ok?)
    ensures !IsAbsolute(p) && cwd.Err? ==> r == Err(cwd.error)
    ensures !IsAbsolute(p) && cwd.Ok? ==>
      r.Ok? && cwd.value <= r.value && |r.value| >= |p| && r.value[|r.value| - |p|..] == p
    ensures r.Ok? && cwd.Ok? && IsAbsolute(cwd.value) ==> IsAbsolute(r.value)
    ensures !IsAbsolute(p) && cwd.Ok? ==> r == Ok(JoinPath(cwd.value, p))
  {
    if !IsAbsolute(p) then
      match cwd
      case Err(e) => Err(e)
      case Ok(dir) => Ok(JoinPath(dir, p))
    else
      Ok(p)
  }

  /** On a relative path the result's segments are the current directory's
      followed by the path's own. */
  lemma MakePathAbsoluteSegments(p: string, dir: string)
    requires !IsAbsolute(p)
    ensures MakePathAbsolute(p, Ok(dir)).Ok?
    ensures Segments(MakePathAbsolute(p, Ok(dir)).value) == Segments(dir) + Segments(p)
  {
    JoinPathSegments(dir, p);
  }

  /** With an absolute current directory the result is absolute, so making it
      absolute again changes nothing. */
  lemma MakePathAbsoluteIdempotent(p: string, cwd: Result<string, IoError>)
    requires cwd.Ok? ==> IsAbsolute(cwd.value)
    requires MakePathAbsolute(p, cwd).Ok?
    ensures MakePathAbsolute(MakePathAbsolute(p, cwd).value, cwd) == MakePathAbsolute(p, cwd)
  {
  }
}
