/**
 * The `perform-export` handler of the main process: it creates the export directory and its
 * `videos` subdirectory, copies every existing source video under a fresh name, writes the
 * synthesized player page to `index.html` and reports integer progress values on the way.
 * The clock (`Date.now()`) and the random draw (`Math.floor(Math.random() * 1000)`) of each
 * loop iteration are inputs; so is the filesystem.
 */
module Export {
  import opened Wrappers
  import opened GraphData
  import opened FileSystem

  /** The `{nodeId, filePath, fileName}` record the editor supplies for each video node. */
  datatype VideoFile = VideoFile(nodeId: string, filePath: string, fileName: string)

  /** What the handler returns: `{success: true, outputPath}` or `{success: false, error}`. */
  datatype Outcome = Exported(outputPath: Path) | ExportFailed(error: string)

  // ---------------------------------------------------------------------------------------
  // Progress values
  // ---------------------------------------------------------------------------------------

  lemma DivAtMost(a: int, b: int, d: int)
    requires 0 <= a <= b && 0 < d
    ensures a / d <= b / d
  {
    var qa, qb := a / d, b / d;
    assert a == d * qa + a % d && b == d * qb + b % d;
    if qa > qb {
      MulAtMost(qb + 1, qa, d);
    }
  }

  lemma MulAtMost(x: int, y: int, d: int)
    requires x <= y && 0 < d
    ensures d * x <= d * y
  {
  }

  lemma DivIs(a: int, d: int, q: int)
    requires 0 < d && d * q <= a < d * (q + 1)
    ensures a / d == q
  {
    var r := a / d;
    assert a == d * r + a % d;
    if r > q {
      MulAtMost(q + 1, r, d);
    } else if r < q {
      MulAtMost(r + 1, q, d);
    }
  }

  lemma DivBelow(a: int, n: int, d: int)
    requires 0 <= a < n * d && 0 < d
    ensures a / d < n
  {
  }

  /** Progress announced when file `i` of `total` starts: `Math.floor(10 + (i / total) * 60)`. */
  function ProcessingProgress(i: nat, total: nat): (p: int)
    requires i < total
    ensures 10 <= p < 70
  {
    DivBelow(60 * i, 60, total);
    10 + (60 * i) / total
  }

  /**
   * Progress announced after file `i` of `total` has been copied: 70 for the last file,
   * otherwise `Math.floor(10 + ((i + 1) / total) * 59)`.
   */
  function CopiedProgress(i: nat, total: nat): (p: int)
    requires i < total
    ensures i == total - 1 ==> p == 70
    ensures i < total - 1 ==> 10 <= p <= 68
  {
    if i == total - 1 then 70
    else
      DivBelow(59 * (i + 1), 59, total);
      10 + (59 * (i + 1)) / total
  }

  /** Up to 60 files, the value after copying file `i` is not below the value announced before it. */
  lemma CopiedNotBelowProcessing(i: nat, total: nat)
    requires i < total <= 60
    ensures ProcessingProgress(i, total) <= CopiedProgress(i, total)
  {
    if i < total - 1 {
      DivAtMost(60 * i, 59 * (i + 1), total);
    }
  }

  /** The value after copying file `i` never exceeds the value announced for file `i + 1`. */
  lemma CopiedNotAboveNext(i: nat, total: nat)
    requires i + 1 < total
    ensures CopiedProgress(i, total) <= ProcessingProgress(i + 1, total)
  {
    DivAtMost(59 * (i + 1), 60 * (i + 1), total);
  }

  /** The values announced before successive files never decrease. */
  lemma ProcessingNotDecreasing(i: nat, total: nat)
    requires i + 1 < total
    ensures ProcessingProgress(i, total) <= ProcessingProgress(i + 1, total)
  {
    DivAtMost(60 * i, 60 * (i + 1), total);
  }

  /**
   * Beyond 120 files the progress goes backwards: the second-to-last file is announced at 69
   * and reported copied at 68.
   */
  lemma ProgressDropsForLargeExports(total: nat)
    requires total > 120
    ensures ProcessingProgress(total - 2, total) == 69
    ensures CopiedProgress(total - 2, total) == 68
  {
    DivIs(60 * (total - 2), total, 59);
    DivIs(59 * (total - 1), total, 58);
  }

  /** With 70 files, file 63 is announced at 64 and reported copied at 63. */
  lemma ProgressDropsAtSeventy()
    ensures ProcessingProgress(63, 70) == 64
    ensures CopiedProgress(63, 70) == 63
  {
  }

  /** With 100 files, file 80 is announced at 58 and reported copied at 57. */
  lemma ProgressDropsAtEightyOfHundred()
    ensures ProcessingProgress(80, 100) == 58
    ensures CopiedProgress(80, 100) == 57
  {
  }

  // ---------------------------------------------------------------------------------------
  // Destination file names
  // ---------------------------------------------------------------------------------------

  /** A number as JavaScript's template literal prints it. */
  function Decimal(n: nat): (s: string)
    ensures |s| > 0
    ensures n < 10 <==> |s| == 1
    ensures forall c :: c in s ==> '0' <= c <= '9'
  {
    if n < 10 then ["0123456789"[n]]
    else Decimal(n / 10) + ["0123456789"[n % 10]]
  }

  /** Distinct numbers print differently. */
  lemma {:induction false} DecimalInjective(a: nat, b: nat)
    requires Decimal(a) == Decimal(b)
    ensures a == b
  {
    if a >= 10 && b >= 10 {
      var s := Decimal(a);
      assert s[..|s| - 1] == Decimal(a / 10) && s[|s| - 1] == "0123456789"[a % 10];
      assert s[..|s| - 1] == Decimal(b / 10) && s[|s| - 1] == "0123456789"[b % 10];
      DecimalInjective(a / 10, b / 10);
    }
  }

  /** The end of `p[..m]` once its trailing separators are dropped. */
  function TrimEnd(p: Path, m: nat): (e: nat)
    requires m <= |p|
    ensures e <= m && (e == 0 || p[e - 1] != '/')
    decreases m
  {
    if m > 0 && p[m - 1] == '/' then TrimEnd(p, m - 1) else m
  }

  /** Everything `TrimEnd` drops is a separator. */
  lemma {:induction false} TrimEndSkipsSeparators(p: Path, m: nat)
    requires m <= |p|
    ensures forall j :: TrimEnd(p, m) <= j < m ==> p[j] == '/'
    decreases m
  {
    if m > 0 && p[m - 1] == '/' {
      TrimEndSkipsSeparators(p, m - 1);
    }
  }

  /** Dropping `n` separators before `m` first does not change where trimming ends. */
  lemma {:induction false} TrimEndSkip(p: Path, m: nat, n: nat)
    requires n <= m <= |p|
    requires forall k :: m - n <= k < m ==> p[k] == '/'
    ensures TrimEnd(p, m) == TrimEnd(p, m - n)
    decreases n
  {
    if n > 0 {
      assert p[m - 1] == '/';
      TrimEndSkip(p, m - 1, n - 1);
    }
  }

  /** The start of the segment that ends at `m`: just after the last separator before `m`, or 0. */
  function SegmentStart(p: Path, m: nat): (k: nat)
    requires m <= |p|
    ensures k <= m && (k == 0 || p[k - 1] == '/')
    decreases m
  {
    if m == 0 || p[m - 1] == '/' then m else SegmentStart(p, m - 1)
  }

  /** The segment that ends at `m` holds no separator. */
  lemma {:induction false} SegmentHasNoSeparator(p: Path, m: nat)
    requires m <= |p|
    ensures forall j :: SegmentStart(p, m) <= j < m ==> p[j] != '/'
    decreases m
  {
    if m > 0 && p[m - 1] != '/' {
      SegmentHasNoSeparator(p, m - 1);
    }
  }

  /**
   * `path.basename(p)` for POSIX paths: trailing separators are dropped, then the segment after
   * the last remaining separator is taken. The result has no separator; `BasenameSegment` says
   * where in `p` it lies and `BasenameEmpty` when it is empty.
   */
  function Basename(p: Path): (b: string)
    ensures '/' !in b && |b| <= |p|
    ensures '/' !in p ==> b == p
  {
    var e := TrimEnd(p, |p|);
    var s := SegmentStart(p, e);
    SegmentHasNoSeparator(p, e);
    TrimEndSkipsSeparators(p, |p|);
    assert forall j :: 0 <= j < e - s ==> p[s..e][j] == p[s + j];
    assert e < |p| ==> '/' in p by {
      if e < |p| { assert p[e] == '/'; }
    }
    assert s > 0 ==> '/' in p by {
      if s > 0 { assert p[s - 1] == '/'; }
    }
    p[s..e]
  }

  /**
   * When `p` ends in exactly `n` separators, its basename is the segment just before them:
   * it ends where they start and is preceded by a separator or the start of `p`.
   */
  lemma BasenameSegment(p: Path, n: nat)
    requires n <= |p|
    requires forall k :: |p| - n <= k < |p| ==> p[k] == '/'
    requires n == |p| || p[|p| - n - 1] != '/'
    ensures var b := Basename(p);
      && |b| <= |p| - n && p[|p| - n - |b|..|p| - n] == b
      && (|p| - n - |b| == 0 || p[|p| - n - |b| - 1] == '/')
  {
    TrimEndSkip(p, |p|, n);
    assert TrimEnd(p, |p| - n) == |p| - n;
  }

  /** The basename of `p` is empty exactly when `p` consists of separators only. */
  lemma BasenameEmpty(p: Path)
    ensures Basename(p) == [] <==> forall k :: 0 <= k < |p| ==> p[k] == '/'
  {
    var e := TrimEnd(p, |p|);
    TrimEndSkipsSeparators(p, |p|);
    if e > 0 {
      assert SegmentStart(p, e) == SegmentStart(p, e - 1);
    }
  }

  /** Trimming within a prefix of `p` ends where trimming `p` does. */
  lemma {:induction false} TrimEndPrefix(p: Path, q: Path, m: nat)
    requires m <= |q| <= |p| && q == p[..|q|]
    ensures TrimEnd(q, m) == TrimEnd(p, m)
    decreases m
  {
    if m > 0 {
      assert q[m - 1] == p[m - 1];
      TrimEndPrefix(p, q, m - 1);
    }
  }

  /** A segment within a prefix of `p` starts where it does in `p`. */
  lemma {:induction false} SegmentStartPrefix(p: Path, q: Path, m: nat)
    requires m <= |q| <= |p| && q == p[..|q|]
    ensures SegmentStart(q, m) == SegmentStart(p, m)
    decreases m
  {
    if m > 0 {
      assert q[m - 1] == p[m - 1];
      SegmentStartPrefix(p, q, m - 1);
    }
  }

  /** Trailing separators do not change the basename. */
  lemma BasenameStrip(p: Path, n: nat)
    requires n <= |p|
    requires forall k :: |p| - n <= k < |p| ==> p[k] == '/'
    ensures Basename(p) == Basename(p[..|p| - n])
  {
    var q := p[..|p| - n];
    TrimEndSkip(p, |p|, n);
    var e := TrimEnd(q, |q|);
    TrimEndPrefix(p, q, |q|);
    SegmentStartPrefix(p, q, e);
    assert q[SegmentStart(q, e)..e] == p[SegmentStart(p, e)..e];
  }

  /** The generated name ``video_${Date.now()}_${rand}_${path.basename(filePath)}``. */
  function VideoFileName(ts: nat, rnd: nat, base: string): string {
    "video_" + Decimal(ts) + "_" + Decimal(rnd) + "_" + base
  }

  /** A generated name contains no path separator, so it names an entry of the videos directory itself. */
  lemma VideoFileNameHasNoSeparator(ts: nat, rnd: nat, p: Path)
    ensures '/' !in VideoFileName(ts, rnd, Basename(p))
  {
    var d, r, b := Decimal(ts), Decimal(rnd), Basename(p);
    assert '/' !in d && '/' !in r && '/' !in b;
    PrefixHasNoSeparator();
    ConcatWithout('/', "video_", d);
    ConcatWithout('/', "video_" + d, "_");
    ConcatWithout('/', "video_" + d + "_", r);
    ConcatWithout('/', "video_" + d + "_" + r, "_");
    ConcatWithout('/', "video_" + d + "_" + r + "_", b);
  }

  lemma PrefixHasNoSeparator()
    ensures '/' !in "video_" && '/' !in "_"
  {
  }

  /** A character in neither part is not in their concatenation. */
  lemma ConcatWithout(c: char, a: string, b: string)
    requires c !in a && c !in b
    ensures c !in a + b
  {
  }

  /** Splitting at the first separator: two underscore-free heads that agree with their tails. */
  lemma SplitAtUnderscore(a: string, x: string, b: string, y: string)
    requires '_' !in a && '_' !in b
    requires a + "_" + x == b + "_" + y
    ensures a == b && x == y
  {
    var s := a + "_" + x;
    assert s[|a|] == '_' && s[|b|] == '_';
    assert forall k :: 0 <= k < |a| ==> s[k] == a[k];
    assert forall k :: 0 <= k < |b| ==> s[k] == b[k];
    assert |a| == |b|;
    assert a == s[..|a|] == b;
    assert x == s[|a| + 1..] == y;
  }

  lemma DecimalHasNoUnderscore(n: nat)
    ensures '_' !in Decimal(n)
  {
  }

  /**
   * The generated name determines clock reading, random draw and base name: two copies made
   * at different milliseconds, or with different draws or base names, never share a name.
   */
  lemma VideoFileNameInjective(ts: nat, rnd: nat, base: string, ts': nat, rnd': nat, base': string)
    requires VideoFileName(ts, rnd, base) == VideoFileName(ts', rnd', base')
    ensures ts == ts' && rnd == rnd' && base == base'
  {
    var d, r, d', r' := Decimal(ts), Decimal(rnd), Decimal(ts'), Decimal(rnd');
    var tail, tail' := r + "_" + base, r' + "_" + base';
    assert VideoFileName(ts, rnd, base) == "video_" + (d + "_" + tail);
    assert VideoFileName(ts', rnd', base') == "video_" + (d' + "_" + tail');
    assert d + "_" + tail == d' + "_" + tail' by {
      var n := "video_" + (d + "_" + tail);
      assert n[6..] == d + "_" + tail;
    }
    DecimalHasNoUnderscore(ts);
    DecimalHasNoUnderscore(ts');
    DecimalHasNoUnderscore(rnd);
    DecimalHasNoUnderscore(rnd');
    SplitAtUnderscore(d, tail, d', tail');
    SplitAtUnderscore(r, base, r', base');
    DecimalInjective(ts, ts');
    DecimalInjective(rnd, rnd');
  }

  // ---------------------------------------------------------------------------------------
  // The export, as a function of its inputs
  // ---------------------------------------------------------------------------------------

  function VideosDir(exportDir: Path): Path {
    Join(exportDir, "videos")
  }

  function IndexPath(exportDir: Path): Path {
    Join(exportDir, "index.html")
  }

  /** Both directories the export writes to, and the `index.html` page, lie inside the export directory. */
  lemma ExportPathsInside(exportDir: Path)
    ensures Inside(VideosDir(exportDir), exportDir) && Inside(IndexPath(exportDir), exportDir)
    ensures |IndexPath(exportDir)| > |VideosDir(exportDir)| > |exportDir|
  {
    assert "videos"[0] == 'v' && "index.html"[0] == 'i';
    JoinInside(exportDir, "videos");
    JoinInside(exportDir, "index.html");
  }

  /** A generated name joined to a directory inside the export directory lies inside it too. */
  lemma CopyTargetInside(exportDir: Path, videosDir: Path, ts: nat, rnd: nat, base: string)
    requires Inside(videosDir, exportDir)
    ensures var dst := Join(videosDir, VideoFileName(ts, rnd, base));
      Inside(dst, exportDir) && |dst| > |videosDir|
  {
    var name := VideoFileName(ts, rnd, base);
    assert name[0] == 'v';
    JoinInside(videosDir, name);
    InsideTransitive(Join(videosDir, name), videosDir, exportDir);
  }

  /** `if (!fs.existsSync(p)) fs.mkdirSync(p, {recursive: true})`. */
  function EnsureDir(fs: Fs, p: Path): Result<Fs> {
    if Exists(fs, p) then Success(fs) else MakeDir(fs, p)
  }

  /** The state the copy loop threads: filesystem, the two mappings, progress values sent so far. */
  datatype Copying = Copying(
    fs: Fs,
    videoMapping: map<string, string>,
    creationTimes: map<string, string>,
    progress: seq<int>)

  /** Where the copy loop stops: after the last file, or at a copy that threw. */
  datatype Copied = Done(state: Copying) | Aborted(fs: Fs, progress: seq<int>, error: string)

  /** One iteration of the copy loop, for file `i` of `total`, with its clock reading and draw. */
  function CopyVideo(c: Copying, videosDir: Path, v: VideoFile, i: nat, total: nat, ts: nat, rnd: nat): Copied
    requires i < total
  {
    var progress := c.progress + [ProcessingProgress(i, total)];
    if v.filePath == "" || !Exists(c.fs, v.filePath) then Done(c.(progress := progress))
    else
      var times := c.creationTimes[v.nodeId := BirthTime(c.fs, v.filePath).GetOr("")];
      var name := VideoFileName(ts, rnd, Basename(v.filePath));
      match CopyFile(c.fs, v.filePath, Join(videosDir, name))
      case Failure(e) => Aborted(c.fs, progress, e)
      case Success(fs') =>
        Done(Copying(fs', c.videoMapping[v.nodeId := "videos/" + name], times, progress + [CopiedProgress(i, total)]))
  }

  /** The copy loop from file `i` on. */
  function CopyVideos(c: Copying, videosDir: Path, files: seq<VideoFile>, clock: seq<nat>, rands: seq<nat>, i: nat): Copied
    requires i <= |files| && |clock| == |files| && |rands| == |files|
    decreases |files| - i
  {
    if i == |files| then Done(c)
    else
      match CopyVideo(c, videosDir, files[i], i, |files|, clock[i], rands[i])
      case Aborted(fs, p, e) => Aborted(fs, p, e)
      case Done(c') => CopyVideos(c', videosDir, files, clock, rands, i + 1)
  }

  /** Everything an export produces: the handler's result, the progress values, the filesystem. */
  datatype Run = Run(outcome: Outcome, progress: seq<int>, fs: Fs)

  /** The whole handler, as a function of the filesystem, the request and the clock and draws. */
  function ExportRun(fs: Fs, exportDir: Path, graph: seq<Cell>, files: seq<VideoFile>, clock: seq<nat>, rands: seq<nat>): Run
    requires |clock| == |files| && |rands| == |files|
  {
    match EnsureDir(fs, exportDir)
    case Failure(e) => Run(ExportFailed(e), [0], fs)
    case Success(fs1) =>
      match EnsureDir(fs1, VideosDir(exportDir))
      case Failure(e) => Run(ExportFailed(e), [0], fs1)
      case Success(fs2) =>
        match CopyVideos(Copying(fs2, map[], map[], [10]), VideosDir(exportDir), files, clock, rands, 0)
        case Aborted(fs3, p, e) => Run(ExportFailed(e), p + [0], fs3)
        case Done(c) =>
          var page := PlayerPage(PlayerDocument(graph, c.videoMapping, c.creationTimes));
          match WriteFile(c.fs, IndexPath(exportDir), page)
          case Failure(e) => Run(ExportFailed(e), c.progress + [80, 0], c.fs)
          case Success(fs4) => Run(Exported(IndexPath(exportDir)), c.progress + [80, 90, 100], fs4)
  }

  // ---------------------------------------------------------------------------------------
  // The handler
  // ---------------------------------------------------------------------------------------

  /**
   * `ipcMain.handle("perform-export", ...)`: `clock[i]` and `rands[i]` are what `Date.now()`
   * and the random draw yield in iteration `i`.
   */
  method PerformExport(fs: Fs, exportDir: Path, graph: seq<Cell>, videoFiles: seq<VideoFile>, clock: seq<nat>, rands: seq<nat>)
    returns (outcome: Outcome, progress: seq<int>, fsOut: Fs)
    requires |clock| == |videoFiles| && |rands| == |videoFiles|
    ensures Run(outcome, progress, fsOut) == ExportRun(fs, exportDir, graph, videoFiles, clock, rands)
  {
    var cur := fs;
    if !Exists(cur, exportDir) {
      match MakeDir(cur, exportDir)
      case Failure(e) => { return ExportFailed(e), [0], cur; }
      case Success(f) => { cur := f; }
    }
    assert EnsureDir(fs, exportDir) == Success(cur);
    ghost var fs1 := cur;
    var videosDir := Join(exportDir, "videos");
    if !Exists(cur, videosDir) {
      match MakeDir(cur, videosDir)
      case Failure(e) => { return ExportFailed(e), [0], cur; }
      case Success(f) => { cur := f; }
    }
    assert EnsureDir(fs1, VideosDir(exportDir)) == Success(cur);
    progress := [10];

    var videoMapping: map<string, string> := map[];
    var videoCreationTimes: map<string, string> := map[];
    var totalFiles := |videoFiles|;
    ghost var whole := CopyVideos(Copying(cur, map[], map[], [10]), videosDir, videoFiles, clock, rands, 0);
    for i := 0 to totalFiles
      invariant CopyVideos(Copying(cur, videoMapping, videoCreationTimes, progress), videosDir, videoFiles, clock, rands, i) == whole
    {
      var video := videoFiles[i];
      ghost var step := CopyVideo(Copying(cur, videoMapping, videoCreationTimes, progress), videosDir, video, i, totalFiles, clock[i], rands[i]);
      progress := progress + [ProcessingProgress(i, totalFiles)];
      if video.filePath != "" && Exists(cur, video.filePath) {
        videoCreationTimes := videoCreationTimes[video.nodeId := BirthTime(cur, video.filePath).GetOr("")];
        var uniqueFileName := VideoFileName(clock[i], rands[i], Basename(video.filePath));
        match CopyFile(cur, video.filePath, Join(videosDir, uniqueFileName))
        case Failure(e) => {
          assert step == Aborted(cur, progress, e);
          return ExportFailed(e), progress + [0], cur;
        }
        case Success(f) => { cur := f; }
        videoMapping := videoMapping[video.nodeId := "videos/" + uniqueFileName];
        progress := progress + [CopiedProgress(i, totalFiles)];
      }
      assert step == Done(Copying(cur, videoMapping, videoCreationTimes, progress));
    }
    assert whole == Done(Copying(cur, videoMapping, videoCreationTimes, progress));

    progress := progress + [80];
    var page := PlayerPage(PlayerDocument(graph, videoMapping, videoCreationTimes));
    match WriteFile(cur, Join(exportDir, "index.html"), page)
    case Failure(e) => { return ExportFailed(e), progress + [0], cur; }
    case Success(f) => { cur := f; }
    progress := progress + [90, 100];
    return Exported(Join(exportDir, "index.html")), progress, cur;
  }

  // ---------------------------------------------------------------------------------------
  // Progress values of an export
  // ---------------------------------------------------------------------------------------

  /** The progress values sent by the copy loop, wherever it stopped. */
  function Emitted(r: Copied): seq<int> {
    match r
    case Done(c) => c.progress
    case Aborted(_, p, _) => p
  }

  /** `t` is `s` followed by values between `lo` and `hi`. */
  ghost predicate ExtendsWithin(s: seq<int>, t: seq<int>, lo: int, hi: int) {
    |s| <= |t| && t[..|s|] == s && forall j :: |s| <= j < |t| ==> lo <= t[j] <= hi
  }

  ghost predicate NonDecreasing(s: seq<int>) {
    forall j :: 0 < j < |s| ==> s[j - 1] <= s[j]
  }

  /** One iteration sends the value announced before the file and, if it copied, the copied value. */
  lemma CopyVideoProgress(c: Copying, videosDir: Path, v: VideoFile, i: nat, total: nat, ts: nat, rnd: nat)
    requires i < total
    ensures var step := CopyVideo(c, videosDir, v, i, total, ts, rnd);
      || Emitted(step) == c.progress + [ProcessingProgress(i, total)]
      || (step.Done? && Emitted(step) == c.progress + [ProcessingProgress(i, total), CopiedProgress(i, total)])
  {
    var progress := c.progress + [ProcessingProgress(i, total)];
    if v.filePath != "" && Exists(c.fs, v.filePath) {
      match CopyFile(c.fs, v.filePath, Join(videosDir, VideoFileName(ts, rnd, Basename(v.filePath))))
      case Failure(e) =>
        assert CopyVideo(c, videosDir, v, i, total, ts, rnd) == Aborted(c.fs, progress, e);
      case Success(_) =>
        assert Emitted(CopyVideo(c, videosDir, v, i, total, ts, rnd)) == progress + [CopiedProgress(i, total)];
    }
  }

  /** Extending a sequence within a band, twice, extends it within the band. */
  lemma ExtendsWithinTransitive(s: seq<int>, t: seq<int>, u: seq<int>, lo: int, hi: int)
    requires ExtendsWithin(s, t, lo, hi) && ExtendsWithin(t, u, lo, hi)
    ensures ExtendsWithin(s, u, lo, hi)
  {
    assert u[..|t|][..|s|] == u[..|s|];
  }

  /** Every value the copy loop sends lies in the band from 10 to 70. */
  lemma {:induction false} CopyVideosProgressBand(c: Copying, videosDir: Path, files: seq<VideoFile>, clock: seq<nat>, rands: seq<nat>, i: nat)
    requires i <= |files| && |clock| == |files| && |rands| == |files|
    ensures ExtendsWithin(c.progress, Emitted(CopyVideos(c, videosDir, files, clock, rands, i)), 10, 70)
    decreases |files| - i
  {
    if i == |files| {
      assert c.progress[..|c.progress|] == c.progress;
    } else {
      var step := CopyVideo(c, videosDir, files[i], i, |files|, clock[i], rands[i]);
      CopyVideoProgress(c, videosDir, files[i], i, |files|, clock[i], rands[i]);
      assert ExtendsWithin(c.progress, Emitted(step), 10, 70) by {
        assert Emitted(step)[..|c.progress|] == c.progress;
      }
      if step.Done? {
        CopyVideosProgressBand(step.state, videosDir, files, clock, rands, i + 1);
        ExtendsWithinTransitive(c.progress, step.state.progress,
          Emitted(CopyVideos(step.state, videosDir, files, clock, rands, i + 1)), 10, 70);
      }
    }
  }

  lemma PushNonDecreasing(s: seq<int>, x: int)
    requires NonDecreasing(s) && |s| > 0 && s[|s| - 1] <= x
    ensures NonDecreasing(s + [x])
  {
  }

  /**
   * With at most 60 files, the copy loop continues a non-decreasing sequence without going
   * down and ends at or below 70.
   */
  lemma {:induction false} CopyVideosMonotone(c: Copying, videosDir: Path, files: seq<VideoFile>, clock: seq<nat>, rands: seq<nat>, i: nat)
    requires i <= |files| <= 60 && |clock| == |files| && |rands| == |files|
    requires NonDecreasing(c.progress) && |c.progress| > 0 && c.progress[|c.progress| - 1] <= 70
    requires i < |files| ==> c.progress[|c.progress| - 1] <= ProcessingProgress(i, |files|)
    ensures CopyVideos(c, videosDir, files, clock, rands, i).Done? ==>
      var p := CopyVideos(c, videosDir, files, clock, rands, i).state.progress;
      NonDecreasing(p) && |p| > 0 && p[|p| - 1] <= 70
    decreases |files| - i
  {
    if i < |files| {
      var step := CopyVideo(c, videosDir, files[i], i, |files|, clock[i], rands[i]);
      var before, after := ProcessingProgress(i, |files|), CopiedProgress(i, |files|);
      CopyVideoProgress(c, videosDir, files[i], i, |files|, clock[i], rands[i]);
      if step.Done? {
        CopiedNotBelowProcessing(i, |files|);
        if i + 1 < |files| {
          CopiedNotAboveNext(i, |files|);
          ProcessingNotDecreasing(i, |files|);
        }
        PushNonDecreasing(c.progress, before);
        if step.state.progress != c.progress + [before] {
          assert step.state.progress == c.progress + [before] + [after];
          PushNonDecreasing(c.progress + [before], after);
        }
        CopyVideosMonotone(step.state, videosDir, files, clock, rands, i + 1);
        assert CopyVideos(c, videosDir, files, clock, rands, i) == CopyVideos(step.state, videosDir, files, clock, rands, i + 1);
      }
    }
  }

  /**
   * The progress values of an export: 10 first; on success the copy loop's values between 10
   * and 70 followed by 80, 90 and 100; on failure the values sent before the error, each at
   * least 10, followed by a single 0. A run succeeds exactly when its last value is not 0.
   */
  predicate ProgressReport(r: Run, exportDir: Path) {
    && |r.progress| > 0
    && (r.outcome.Exported? <==> r.progress[|r.progress| - 1] != 0)
    && (r.outcome.Exported? ==>
          && r.outcome.outputPath == IndexPath(exportDir)
          && |r.progress| >= 4 && r.progress[0] == 10
          && r.progress[|r.progress| - 3..] == [80, 90, 100]
          && forall j :: 0 <= j < |r.progress| - 3 ==> 10 <= r.progress[j] <= 70)
    && (r.outcome.ExportFailed? ==>
          forall j :: 0 <= j < |r.progress| - 1 ==> 10 <= r.progress[j] <= 80)
  }

  /** Every export reports its progress in that shape. */
  lemma ExportProgress(fs: Fs, exportDir: Path, graph: seq<Cell>, files: seq<VideoFile>, clock: seq<nat>, rands: seq<nat>)
    requires |clock| == |files| && |rands| == |files|
    ensures ProgressReport(ExportRun(fs, exportDir, graph, files, clock, rands), exportDir)
  {
    match EnsureDir(fs, exportDir)
    case Failure(_) =>
    case Success(fs1) =>
      match EnsureDir(fs1, VideosDir(exportDir))
      case Failure(_) =>
      case Success(fs2) =>
        CopiedExportProgress(fs, fs1, fs2, exportDir, graph, files, clock, rands);
  }

  /** The progress of an export whose two directories are in place. */
  lemma CopiedExportProgress(fs: Fs, fs1: Fs, fs2: Fs, exportDir: Path, graph: seq<Cell>, files: seq<VideoFile>, clock: seq<nat>, rands: seq<nat>)
    requires |clock| == |files| && |rands| == |files|
    requires EnsureDir(fs, exportDir) == Success(fs1) && EnsureDir(fs1, VideosDir(exportDir)) == Success(fs2)
    ensures ProgressReport(ExportRun(fs, exportDir, graph, files, clock, rands), exportDir)
  {
    var r := ExportRun(fs, exportDir, graph, files, clock, rands);
    var c0 := Copying(fs2, map[], map[], [10]);
    CopyVideosProgressBand(c0, VideosDir(exportDir), files, clock, rands, 0);
    match CopyVideos(c0, VideosDir(exportDir), files, clock, rands, 0)
    case Aborted(_, p, _) =>
      assert r.progress == p + [0];
      BandThenTail(p, [0]);
    case Done(c) =>
      var page := PlayerPage(PlayerDocument(graph, c.videoMapping, c.creationTimes));
      match WriteFile(c.fs, IndexPath(exportDir), page)
      case Failure(_) =>
        assert r.progress == c.progress + [80, 0];
        BandThenTail(c.progress, [80, 0]);
      case Success(_) =>
        assert r.progress == c.progress + [80, 90, 100];
        BandThenTail(c.progress, [80, 90, 100]);
  }

  /** A run of loop values after the initial 10, followed by a tail. */
  lemma BandThenTail(p: seq<int>, tail: seq<int>)
    requires ExtendsWithin([10], p, 10, 70)
    ensures |p + tail| == |p| + |tail| && (p + tail)[0] == 10 && (p + tail)[|p|..] == tail
    ensures forall j :: 0 <= j < |p| ==> 10 <= (p + tail)[j] <= 70
  {
    assert p[..1] == [10];
  }

  /**
   * With at most 60 files a successful export sends non-decreasing progress values ending at
   * 100. (Beyond that the copied value can fall below the one announced before it: see
   * ProgressDropsForLargeExports.)
   */
  lemma ExportProgressMonotone(fs: Fs, exportDir: Path, graph: seq<Cell>, files: seq<VideoFile>, clock: seq<nat>, rands: seq<nat>)
    requires |clock| == |files| && |rands| == |files| && |files| <= 60
    ensures var r := ExportRun(fs, exportDir, graph, files, clock, rands);
      r.outcome.Exported? ==> NonDecreasing(r.progress) && r.progress[|r.progress| - 1] == 100
  {
    match EnsureDir(fs, exportDir)
    case Failure(_) =>
    case Success(fs1) =>
      match EnsureDir(fs1, VideosDir(exportDir))
      case Failure(_) =>
      case Success(fs2) =>
        var c0 := Copying(fs2, map[], map[], [10]);
        CopyVideosMonotone(c0, VideosDir(exportDir), files, clock, rands, 0);
  }

  // ---------------------------------------------------------------------------------------
  // The video mapping of an export
  // ---------------------------------------------------------------------------------------

  /**
   * Each key of `mapping` is the node id of one of the first `n` entries that has a non-empty
   * path, and its value is `videos/` followed by the name generated in that entry's iteration;
   * the creation-time mapping has exactly the same keys.
   */
  ghost predicate MappedFrom(mapping: map<string, string>, times: map<string, string>,
                             files: seq<VideoFile>, clock: seq<nat>, rands: seq<nat>, n: nat)
    requires n <= |files| && |clock| == |files| && |rands| == |files|
  {
    && mapping.Keys == times.Keys
    && forall k :: k in mapping ==>
         exists j :: 0 <= j < n && files[j].nodeId == k && files[j].filePath != ""
                     && mapping[k] == "videos/" + VideoFileName(clock[j], rands[j], Basename(files[j].filePath))
  }

  /** One iteration leaves both mappings alone or maps the entry's id in both, to its new name. */
  lemma CopyVideoMapping(c: Copying, videosDir: Path, v: VideoFile, i: nat, total: nat, ts: nat, rnd: nat)
    requires i < total
    ensures var step := CopyVideo(c, videosDir, v, i, total, ts, rnd);
      step.Done? ==>
        || (step.state.videoMapping == c.videoMapping && step.state.creationTimes == c.creationTimes)
        || (&& v.filePath != ""
            && step.state.videoMapping == c.videoMapping[v.nodeId := "videos/" + VideoFileName(ts, rnd, Basename(v.filePath))]
            && step.state.creationTimes.Keys == c.creationTimes.Keys + {v.nodeId})
  {
  }

  lemma {:induction false} CopyVideosMapping(c: Copying, videosDir: Path, files: seq<VideoFile>, clock: seq<nat>, rands: seq<nat>, i: nat)
    requires i <= |files| && |clock| == |files| && |rands| == |files|
    requires MappedFrom(c.videoMapping, c.creationTimes, files, clock, rands, i)
    ensures CopyVideos(c, videosDir, files, clock, rands, i).Done? ==>
      var c' := CopyVideos(c, videosDir, files, clock, rands, i).state;
      MappedFrom(c'.videoMapping, c'.creationTimes, files, clock, rands, |files|)
    decreases |files| - i
  {
    if i < |files| {
      var step := CopyVideo(c, videosDir, files[i], i, |files|, clock[i], rands[i]);
      CopyVideoMapping(c, videosDir, files[i], i, |files|, clock[i], rands[i]);
      if step.Done? {
        MappedFromExtend(c.videoMapping, c.creationTimes, step.state.videoMapping, step.state.creationTimes, files, clock, rands, i);
        CopyVideosMapping(step.state, videosDir, files, clock, rands, i + 1);
      }
    }
  }

  /** Leaving both mappings alone, or mapping entry `i`'s id to its new name, extends MappedFrom by one entry. */
  lemma MappedFromExtend(m: map<string, string>, t: map<string, string>, m': map<string, string>, t': map<string, string>,
                         files: seq<VideoFile>, clock: seq<nat>, rands: seq<nat>, i: nat)
    requires i < |files| && |clock| == |files| && |rands| == |files|
    requires MappedFrom(m, t, files, clock, rands, i)
    requires || (m' == m && t' == t)
             || (&& files[i].filePath != ""
                 && m' == m[files[i].nodeId := "videos/" + VideoFileName(clock[i], rands[i], Basename(files[i].filePath))]
                 && t'.Keys == t.Keys + {files[i].nodeId})
    ensures MappedFrom(m', t', files, clock, rands, i + 1)
  {
    forall k | k in m'
      ensures exists j :: 0 <= j < i + 1 && files[j].nodeId == k && files[j].filePath != ""
                 && m'[k] == "videos/" + VideoFileName(clock[j], rands[j], Basename(files[j].filePath))
    {
      if k != files[i].nodeId || m' == m {
        assert k in m && m'[k] == m[k];
        var j :| 0 <= j < i && files[j].nodeId == k && files[j].filePath != ""
                 && m[k] == "videos/" + VideoFileName(clock[j], rands[j], Basename(files[j].filePath));
      } else {
        assert files[i].nodeId == k;
      }
    }
  }

  /**
   * The copy loop only adds: paths that existed still exist, keys stay mapped, and every entry
   * whose non-empty source path exists when the loop reaches it gets its node id mapped.
   */
  lemma {:induction false} CopyVideosMapsExistingSources(c: Copying, videosDir: Path, files: seq<VideoFile>, clock: seq<nat>, rands: seq<nat>, i: nat)
    requires i <= |files| && |clock| == |files| && |rands| == |files|
    ensures CopyVideos(c, videosDir, files, clock, rands, i).Done? ==>
      var c' := CopyVideos(c, videosDir, files, clock, rands, i).state;
      && (forall p :: Exists(c.fs, p) ==> Exists(c'.fs, p))
      && c.videoMapping.Keys <= c'.videoMapping.Keys
      && forall j :: i <= j < |files| && files[j].filePath != "" && Exists(c.fs, files[j].filePath) ==>
           files[j].nodeId in c'.videoMapping
    decreases |files| - i
  {
    if i < |files| {
      var step := CopyVideo(c, videosDir, files[i], i, |files|, clock[i], rands[i]);
      if step.Done? {
        CopyVideosMapsExistingSources(step.state, videosDir, files, clock, rands, i + 1);
      }
    }
  }

  /**
   * One iteration creates nothing outside the export directory, and maps `k` only when its
   * entry's source exists beforehand or lies there.
   */
  lemma CopyVideoStaysInside(c: Copying, fs0: Fs, exportDir: Path, videosDir: Path, v: VideoFile, i: nat, total: nat, ts: nat, rnd: nat, k: string)
    requires i < total && Inside(videosDir, exportDir)
    requires forall p :: Exists(c.fs, p) ==> Exists(fs0, p) || Inside(p, exportDir)
    requires k !in c.videoMapping
    requires v.nodeId == k ==> v.filePath == "" || (!Exists(fs0, v.filePath) && !Inside(v.filePath, exportDir))
    ensures var step := CopyVideo(c, videosDir, v, i, total, ts, rnd);
      step.Done? ==>
        && (forall p :: Exists(step.state.fs, p) ==> Exists(fs0, p) || Inside(p, exportDir))
        && k !in step.state.videoMapping
  {
    var step := CopyVideo(c, videosDir, v, i, total, ts, rnd);
    if step.Done? {
      if v.filePath != "" && Exists(c.fs, v.filePath) {
        var dst := Join(videosDir, VideoFileName(ts, rnd, Basename(v.filePath)));
        CopyTargetInside(exportDir, videosDir, ts, rnd, Basename(v.filePath));
        assert step.state.fs.files == c.fs.files[dst := c.fs.files[v.filePath]] && step.state.fs.dirs == c.fs.dirs;
      } else {
        assert step.state.fs == c.fs && step.state.videoMapping == c.videoMapping;
      }
    }
  }

  /**
   * Whatever the copy loop creates lies under the export directory, so an entry whose source
   * neither exists beforehand nor lies there is never mapped.
   */
  lemma {:induction false} CopyVideosSkipsMissing(c: Copying, fs0: Fs, exportDir: Path, videosDir: Path,
                                                  files: seq<VideoFile>, clock: seq<nat>, rands: seq<nat>, i: nat, k: string)
    requires i <= |files| && |clock| == |files| && |rands| == |files|
    requires Inside(videosDir, exportDir)
    requires forall p :: Exists(c.fs, p) ==> Exists(fs0, p) || Inside(p, exportDir)
    requires k !in c.videoMapping
    requires forall j :: i <= j < |files| && files[j].nodeId == k ==>
               files[j].filePath == "" || (!Exists(fs0, files[j].filePath) && !Inside(files[j].filePath, exportDir))
    ensures CopyVideos(c, videosDir, files, clock, rands, i).Done? ==>
      k !in CopyVideos(c, videosDir, files, clock, rands, i).state.videoMapping
    decreases |files| - i
  {
    if i < |files| {
      var step := CopyVideo(c, videosDir, files[i], i, |files|, clock[i], rands[i]);
      CopyVideoStaysInside(c, fs0, exportDir, videosDir, files[i], i, |files|, clock[i], rands[i], k);
      if step.Done? {
        CopyVideosSkipsMissing(step.state, fs0, exportDir, videosDir, files, clock, rands, i + 1, k);
      }
    }
  }

  /** Making a directory under `dir` creates nothing outside `dir`. */
  lemma EnsureDirInside(fs: Fs, p: Path, dir: Path)
    requires Inside(p, dir)
    ensures EnsureDir(fs, p).Success? ==>
      forall q :: Exists(EnsureDir(fs, p).value, q) ==> Exists(fs, q) || Inside(q, dir)
  {
  }

  /** `path.join(path.join(dir, "videos"), name)` is `path.join(dir, "videos/" + name)`. */
  lemma JoinVideos(dir: Path, name: Path)
    ensures Join(VideosDir(dir), name) == Join(dir, "videos/" + name)
  {
    var v := VideosDir(dir);
    JoinEndsWithName(dir, "videos");
    assert v[|v| - 1] == 's' by {
      assert v[|v| - 1] == v[|v| - |"videos"|..][5];
    }
    assert Join(v, name) == v + "/" + name;
    var pre: string;
    if dir == [] {
      pre := [];
    } else if dir[|dir| - 1] == '/' {
      pre := dir;
    } else {
      pre := dir + "/";
    }
    assert v == pre + "videos";
    assert Join(dir, "videos/" + name) == pre + ("videos/" + name);
    assert pre + "videos" + "/" + name == pre + ("videos/" + name);
  }

  /** Every mapped path, resolved against the export directory, names a file that exists. */
  lemma {:induction false} CopyVideosPathsResolve(c: Copying, exportDir: Path, files: seq<VideoFile>, clock: seq<nat>, rands: seq<nat>, i: nat)
    requires i <= |files| && |clock| == |files| && |rands| == |files|
    requires forall k :: k in c.videoMapping ==> Join(exportDir, c.videoMapping[k]) in c.fs.files
    ensures CopyVideos(c, VideosDir(exportDir), files, clock, rands, i).Done? ==>
      var c' := CopyVideos(c, VideosDir(exportDir), files, clock, rands, i).state;
      forall k :: k in c'.videoMapping ==> Join(exportDir, c'.videoMapping[k]) in c'.fs.files
    decreases |files| - i
  {
    if i < |files| {
      var v := files[i];
      var step := CopyVideo(c, VideosDir(exportDir), v, i, |files|, clock[i], rands[i]);
      if step.Done? {
        var c1 := step.state;
        if v.filePath != "" && Exists(c.fs, v.filePath) {
          var name := VideoFileName(clock[i], rands[i], Basename(v.filePath));
          JoinVideos(exportDir, name);
          assert c1.fs.files == c.fs.files[Join(VideosDir(exportDir), name) := c.fs.files[v.filePath]];
          assert c1.videoMapping == c.videoMapping[v.nodeId := "videos/" + name];
          forall k | k in c1.videoMapping
            ensures Join(exportDir, c1.videoMapping[k]) in c1.fs.files
          {
            if k != v.nodeId {
              assert Join(exportDir, c.videoMapping[k]) in c.fs.files;
            }
          }
        }
        assert forall k :: k in c1.videoMapping ==> Join(exportDir, c1.videoMapping[k]) in c1.fs.files;
        CopyVideosPathsResolve(c1, exportDir, files, clock, rands, i + 1);
        assert CopyVideos(c, VideosDir(exportDir), files, clock, rands, i) == CopyVideos(c1, VideosDir(exportDir), files, clock, rands, i + 1);
      }
    }
  }

  /** The player document an export wrote to `index.html`, if any. */
  function WrittenDocument(r: Run, exportDir: Path): Option<PlayerDocument> {
    var p := IndexPath(exportDir);
    if p in r.fs.files && r.fs.files[p].PlayerPage? then Some(r.fs.files[p].document) else None
  }

  /**
   * A successful export writes a player page at `index.html` that embeds the graph unchanged, a
   * video mapping whose keys and values come from the entries as MappedFrom says, whose paths
   * all resolve to files under the export directory, and that maps every entry whose source
   * existed beforehand.
   */
  lemma ExportMapping(fs: Fs, exportDir: Path, graph: seq<Cell>, files: seq<VideoFile>, clock: seq<nat>, rands: seq<nat>)
    requires |clock| == |files| && |rands| == |files|
    ensures var r := ExportRun(fs, exportDir, graph, files, clock, rands);
      r.outcome.Exported? ==>
        && WrittenDocument(r, exportDir).Some?
        && var d := WrittenDocument(r, exportDir).value;
        && d.graph == graph
        && MappedFrom(d.videoMapping, d.creationTimes, files, clock, rands, |files|)
        && (forall k :: k in d.videoMapping ==> Join(exportDir, d.videoMapping[k]) in r.fs.files)
        && forall j :: 0 <= j < |files| && files[j].filePath != "" && Exists(fs, files[j].filePath) ==>
             files[j].nodeId in d.videoMapping
  {
    var r := ExportRun(fs, exportDir, graph, files, clock, rands);
    match EnsureDir(fs, exportDir)
    case Failure(_) =>
    case Success(fs1) =>
      match EnsureDir(fs1, VideosDir(exportDir))
      case Failure(_) =>
      case Success(fs2) =>
        var c0 := Copying(fs2, map[], map[], [10]);
        CopyVideosMapping(c0, VideosDir(exportDir), files, clock, rands, 0);
        CopyVideosMapsExistingSources(c0, VideosDir(exportDir), files, clock, rands, 0);
        CopyVideosPathsResolve(c0, exportDir, files, clock, rands, 0);
        match CopyVideos(c0, VideosDir(exportDir), files, clock, rands, 0)
        case Aborted(_, _, _) =>
        case Done(c) =>
          var page := PlayerPage(PlayerDocument(graph, c.videoMapping, c.creationTimes));
          match WriteFile(c.fs, IndexPath(exportDir), page)
          case Failure(_) =>
          case Success(fs4) =>
            assert r.fs == fs4 && fs4.files[IndexPath(exportDir)] == page;
  }

  /** No two iterations draw the same clock reading and random number. */
  ghost predicate DistinctDraws(clock: seq<nat>, rands: seq<nat>)
    requires |clock| == |rands|
  {
    forall j, j' :: 0 <= j < j' < |clock| ==> clock[j] != clock[j'] || rands[j] != rands[j']
  }

  /** `fs` keeps the creation times of `fs0`, and outside `dir` holds only files of `fs0`, unchanged. */
  ghost predicate Untouched(fs: Fs, fs0: Fs, dir: Path) {
    && fs.birthTimes == fs0.birthTimes
    && forall p :: p in fs.files && !Inside(p, dir) ==> p in fs0.files && fs.files[p] == fs0.files[p]
  }

  /**
   * Entry `j` supplied key `k`: its source is a file of `fs0`, `k` maps to the name generated
   * in its iteration, the creation time recorded for `k` is its source's, and the mapped path,
   * resolved against the export directory, is a file of `fs` holding what the source held.
   */
  ghost predicate Supplied(mapping: map<string, string>, times: map<string, string>, fs: Fs, fs0: Fs, exportDir: Path,
                           files: seq<VideoFile>, clock: seq<nat>, rands: seq<nat>, k: string, j: nat)
    requires |clock| == |files| && |rands| == |files|
  {
    && j < |files| && files[j].nodeId == k && files[j].filePath in fs0.files
    && k in mapping && k in times
    && mapping[k] == "videos/" + VideoFileName(clock[j], rands[j], Basename(files[j].filePath))
    && times[k] == BirthTime(fs0, files[j].filePath).GetOr("")
    && Join(exportDir, mapping[k]) in fs.files
    && fs.files[Join(exportDir, mapping[k])] == fs0.files[files[j].filePath]
  }

  /** Every mapped key was supplied by one of the first `n` entries. */
  ghost predicate CopiedFrom(mapping: map<string, string>, times: map<string, string>, fs: Fs, fs0: Fs, exportDir: Path,
                             files: seq<VideoFile>, clock: seq<nat>, rands: seq<nat>, n: nat)
    requires |clock| == |files| && |rands| == |files|
  {
    forall k :: k in mapping ==> exists j: nat :: j < n && Supplied(mapping, times, fs, fs0, exportDir, files, clock, rands, k, j)
  }

  /** `path.join(dir, name)` determines `name`. */
  lemma JoinInjective(dir: Path, a: Path, b: Path)
    requires Join(dir, a) == Join(dir, b)
    ensures a == b
  {
    var p := Join(dir, a);
    if dir == [] {
    } else if dir[|dir| - 1] == '/' {
      assert a == p[|dir|..] == b;
    } else {
      assert a == p[|dir| + 1..] == b;
    }
  }

  /** Supplied survives writing a file at another path. */
  lemma SuppliedAfterWrite(m: map<string, string>, t: map<string, string>, fs: Fs, fs': Fs, fs0: Fs, exportDir: Path,
                           files: seq<VideoFile>, clock: seq<nat>, rands: seq<nat>, k: string, j: nat, dst: Path, x: Content)
    requires |clock| == |files| && |rands| == |files|
    requires Supplied(m, t, fs, fs0, exportDir, files, clock, rands, k, j)
    requires fs'.files == fs.files[dst := x] && dst != Join(exportDir, m[k])
    ensures Supplied(m, t, fs', fs0, exportDir, files, clock, rands, k, j)
  {
  }

  /** Supplied survives mapping another key. */
  lemma SuppliedAfterUpdate(m: map<string, string>, t: map<string, string>, fs: Fs, fs0: Fs, exportDir: Path,
                            files: seq<VideoFile>, clock: seq<nat>, rands: seq<nat>, k: string, j: nat,
                            key: string, value: string, time: string)
    requires |clock| == |files| && |rands| == |files|
    requires Supplied(m, t, fs, fs0, exportDir, files, clock, rands, k, j) && k != key
    ensures Supplied(m[key := value], t[key := time], fs, fs0, exportDir, files, clock, rands, k, j)
  {
  }

  /** Iterations with different draws copy to different files of the videos directory. */
  lemma DistinctCopies(exportDir: Path, ts: nat, rnd: nat, base: string, ts': nat, rnd': nat, base': string)
    requires ts != ts' || rnd != rnd'
    ensures Join(exportDir, "videos/" + VideoFileName(ts, rnd, base)) != Join(VideosDir(exportDir), VideoFileName(ts', rnd', base'))
  {
    var name, name' := VideoFileName(ts, rnd, base), VideoFileName(ts', rnd', base');
    JoinVideos(exportDir, name);
    if Join(VideosDir(exportDir), name) == Join(VideosDir(exportDir), name') {
      JoinInjective(VideosDir(exportDir), name, name');
      VideoFileNameInjective(ts, rnd, base, ts', rnd', base');
    }
  }

  /** A mapped video never resolves to `index.html`. */
  lemma VideoIsNotIndex(exportDir: Path, name: string)
    ensures Join(exportDir, "videos/" + name) != IndexPath(exportDir)
  {
    assert ("videos/" + name)[0] != "index.html"[0];
    if Join(exportDir, "videos/" + name) == IndexPath(exportDir) {
      JoinInjective(exportDir, "videos/" + name, "index.html");
    }
  }

  /** Copying entry `i`'s source to its generated name extends CopiedFrom by that entry. */
  lemma CopiedFromCopy(m: map<string, string>, t: map<string, string>, fs: Fs, fs': Fs, fs0: Fs, exportDir: Path,
                       files: seq<VideoFile>, clock: seq<nat>, rands: seq<nat>, i: nat)
    requires i < |files| && |clock| == |files| && |rands| == |files|
    requires DistinctDraws(clock, rands) && files[i].filePath in fs0.files
    requires CopiedFrom(m, t, fs, fs0, exportDir, files, clock, rands, i)
    requires var name := VideoFileName(clock[i], rands[i], Basename(files[i].filePath));
      fs'.files == fs.files[Join(VideosDir(exportDir), name) := fs0.files[files[i].filePath]]
    ensures var v := files[i];
      CopiedFrom(m[v.nodeId := "videos/" + VideoFileName(clock[i], rands[i], Basename(v.filePath))],
                 t[v.nodeId := BirthTime(fs0, v.filePath).GetOr("")], fs', fs0, exportDir, files, clock, rands, i + 1)
  {
    var v := files[i];
    var name := VideoFileName(clock[i], rands[i], Basename(v.filePath));
    var m', t' := m[v.nodeId := "videos/" + name], t[v.nodeId := BirthTime(fs0, v.filePath).GetOr("")];
    forall k | k in m'
      ensures exists j: nat :: j < i + 1 && Supplied(m', t', fs', fs0, exportDir, files, clock, rands, k, j)
    {
      if k == v.nodeId {
        SuppliedByCopy(m, t, fs, fs', fs0, exportDir, files, clock, rands, i);
      } else {
        assert k in m;
        var j: nat :| j < i && Supplied(m, t, fs, fs0, exportDir, files, clock, rands, k, j);
        SuppliedAcrossCopy(m, t, fs, fs', fs0, exportDir, files, clock, rands, k, j, i);
      }
    }
  }

  /** Copying entry `i` makes it the supplier of its node id. */
  lemma SuppliedByCopy(m: map<string, string>, t: map<string, string>, fs: Fs, fs': Fs, fs0: Fs, exportDir: Path,
                       files: seq<VideoFile>, clock: seq<nat>, rands: seq<nat>, i: nat)
    requires i < |files| && |clock| == |files| && |rands| == |files|
    requires files[i].filePath in fs0.files
    requires var name := VideoFileName(clock[i], rands[i], Basename(files[i].filePath));
      fs'.files == fs.files[Join(VideosDir(exportDir), name) := fs0.files[files[i].filePath]]
    ensures var v := files[i];
      Supplied(m[v.nodeId := "videos/" + VideoFileName(clock[i], rands[i], Basename(v.filePath))],
               t[v.nodeId := BirthTime(fs0, v.filePath).GetOr("")], fs', fs0, exportDir, files, clock, rands, v.nodeId, i)
  {
    JoinVideos(exportDir, VideoFileName(clock[i], rands[i], Basename(files[i].filePath)));
  }

  /** A key supplied by an earlier entry stays supplied by it when entry `i` is copied under another key. */
  lemma SuppliedAcrossCopy(m: map<string, string>, t: map<string, string>, fs: Fs, fs': Fs, fs0: Fs, exportDir: Path,
                           files: seq<VideoFile>, clock: seq<nat>, rands: seq<nat>, k: string, j: nat, i: nat)
    requires j < i < |files| && |clock| == |files| && |rands| == |files|
    requires DistinctDraws(clock, rands) && k != files[i].nodeId && files[i].filePath in fs0.files
    requires Supplied(m, t, fs, fs0, exportDir, files, clock, rands, k, j)
    requires var name := VideoFileName(clock[i], rands[i], Basename(files[i].filePath));
      fs'.files == fs.files[Join(VideosDir(exportDir), name) := fs0.files[files[i].filePath]]
    ensures var v := files[i];
      Supplied(m[v.nodeId := "videos/" + VideoFileName(clock[i], rands[i], Basename(v.filePath))],
               t[v.nodeId := BirthTime(fs0, v.filePath).GetOr("")], fs', fs0, exportDir, files, clock, rands, k, j)
  {
    var v := files[i];
    var name := VideoFileName(clock[i], rands[i], Basename(v.filePath));
    DistinctCopies(exportDir, clock[j], rands[j], Basename(files[j].filePath), clock[i], rands[i], Basename(v.filePath));
    SuppliedAfterWrite(m, t, fs, fs', fs0, exportDir, files, clock, rands, k, j, Join(VideosDir(exportDir), name), fs0.files[v.filePath]);
    SuppliedAfterUpdate(m, t, fs', fs0, exportDir, files, clock, rands, k, j, v.nodeId, "videos/" + name, BirthTime(fs0, v.filePath).GetOr(""));
  }

  /** CopiedFrom over `n` entries holds over more entries too. */
  lemma CopiedFromLater(m: map<string, string>, t: map<string, string>, fs: Fs, fs0: Fs, exportDir: Path,
                        files: seq<VideoFile>, clock: seq<nat>, rands: seq<nat>, n: nat, n': nat)
    requires n <= n' && |clock| == |files| && |rands| == |files|
    requires CopiedFrom(m, t, fs, fs0, exportDir, files, clock, rands, n)
    ensures CopiedFrom(m, t, fs, fs0, exportDir, files, clock, rands, n')
  {
    forall k | k in m
      ensures exists j: nat :: j < n' && Supplied(m, t, fs, fs0, exportDir, files, clock, rands, k, j)
    {
      var j: nat :| j < n && Supplied(m, t, fs, fs0, exportDir, files, clock, rands, k, j);
    }
  }

  /** Writing `index.html` leaves CopiedFrom intact. */
  lemma CopiedFromIndex(m: map<string, string>, t: map<string, string>, fs: Fs, fs': Fs, fs0: Fs, exportDir: Path,
                        files: seq<VideoFile>, clock: seq<nat>, rands: seq<nat>, n: nat, page: Content)
    requires |clock| == |files| && |rands| == |files|
    requires CopiedFrom(m, t, fs, fs0, exportDir, files, clock, rands, n)
    requires fs'.files == fs.files[IndexPath(exportDir) := page]
    ensures CopiedFrom(m, t, fs', fs0, exportDir, files, clock, rands, n)
  {
    forall k | k in m
      ensures exists j: nat :: j < n && Supplied(m, t, fs', fs0, exportDir, files, clock, rands, k, j)
    {
      var j: nat :| j < n && Supplied(m, t, fs, fs0, exportDir, files, clock, rands, k, j);
      VideoIsNotIndex(exportDir, VideoFileName(clock[j], rands[j], Basename(files[j].filePath)));
      SuppliedAfterWrite(m, t, fs, fs', fs0, exportDir, files, clock, rands, k, j, IndexPath(exportDir), page);
    }
  }

  /** One iteration keeps Untouched and extends CopiedFrom by one entry. */
  lemma CopyVideoContents(c: Copying, fs0: Fs, exportDir: Path, files: seq<VideoFile>, clock: seq<nat>, rands: seq<nat>, i: nat)
    requires i < |files| && |clock| == |files| && |rands| == |files|
    requires DistinctDraws(clock, rands) && !Inside(files[i].filePath, exportDir)
    requires Untouched(c.fs, fs0, exportDir)
    requires CopiedFrom(c.videoMapping, c.creationTimes, c.fs, fs0, exportDir, files, clock, rands, i)
    ensures var step := CopyVideo(c, VideosDir(exportDir), files[i], i, |files|, clock[i], rands[i]);
      step.Done? ==>
        && Untouched(step.state.fs, fs0, exportDir)
        && CopiedFrom(step.state.videoMapping, step.state.creationTimes, step.state.fs, fs0, exportDir, files, clock, rands, i + 1)
  {
    var v := files[i];
    var V := VideosDir(exportDir);
    var step := CopyVideo(c, V, v, i, |files|, clock[i], rands[i]);
    if step.Done? {
      var c' := step.state;
      if v.filePath != "" && Exists(c.fs, v.filePath) {
        var name := VideoFileName(clock[i], rands[i], Basename(v.filePath));
        var dst := Join(V, name);
        ExportPathsInside(exportDir);
        CopyTargetInside(exportDir, V, clock[i], rands[i], Basename(v.filePath));
        assert c'.fs.files == c.fs.files[dst := c.fs.files[v.filePath]] && c'.fs.birthTimes == c.fs.birthTimes;
        assert v.filePath in fs0.files && c.fs.files[v.filePath] == fs0.files[v.filePath];
        assert c'.videoMapping == c.videoMapping[v.nodeId := "videos/" + name];
        assert c'.creationTimes == c.creationTimes[v.nodeId := BirthTime(fs0, v.filePath).GetOr("")];
        CopiedFromCopy(c.videoMapping, c.creationTimes, c.fs, c'.fs, fs0, exportDir, files, clock, rands, i);
      } else {
        assert c'.videoMapping == c.videoMapping && c'.creationTimes == c.creationTimes && c'.fs == c.fs;
        CopiedFromLater(c.videoMapping, c.creationTimes, c.fs, fs0, exportDir, files, clock, rands, i, i + 1);
      }
    }
  }

  lemma {:induction false} CopyVideosContents(c: Copying, fs0: Fs, exportDir: Path, files: seq<VideoFile>, clock: seq<nat>, rands: seq<nat>, i: nat)
    requires i <= |files| && |clock| == |files| && |rands| == |files|
    requires DistinctDraws(clock, rands) && forall j :: i <= j < |files| ==> !Inside(files[j].filePath, exportDir)
    requires Untouched(c.fs, fs0, exportDir)
    requires CopiedFrom(c.videoMapping, c.creationTimes, c.fs, fs0, exportDir, files, clock, rands, i)
    ensures CopyVideos(c, VideosDir(exportDir), files, clock, rands, i).Done? ==>
      var c' := CopyVideos(c, VideosDir(exportDir), files, clock, rands, i).state;
      Untouched(c'.fs, fs0, exportDir) && CopiedFrom(c'.videoMapping, c'.creationTimes, c'.fs, fs0, exportDir, files, clock, rands, |files|)
    decreases |files| - i
  {
    if i < |files| {
      var step := CopyVideo(c, VideosDir(exportDir), files[i], i, |files|, clock[i], rands[i]);
      CopyVideoContents(c, fs0, exportDir, files, clock, rands, i);
      if step.Done? {
        CopyVideosContents(step.state, fs0, exportDir, files, clock, rands, i + 1);
      }
    }
  }

  /**
   * When the clock readings and draws of the iterations are pairwise distinct and every source
   * lies outside the export directory, a successful export maps each key to a copy, inside the
   * export directory, of the source of the entry that supplied it, and records that source's
   * creation time for the key.
   */
  lemma ExportContents(fs: Fs, exportDir: Path, graph: seq<Cell>, files: seq<VideoFile>, clock: seq<nat>, rands: seq<nat>)
    requires |clock| == |files| && |rands| == |files|
    requires DistinctDraws(clock, rands) && forall j :: 0 <= j < |files| ==> !Inside(files[j].filePath, exportDir)
    ensures var r := ExportRun(fs, exportDir, graph, files, clock, rands);
      r.outcome.Exported? ==>
        && WrittenDocument(r, exportDir).Some?
        && var d := WrittenDocument(r, exportDir).value;
        CopiedFrom(d.videoMapping, d.creationTimes, r.fs, fs, exportDir, files, clock, rands, |files|)
  {
    var r := ExportRun(fs, exportDir, graph, files, clock, rands);
    match EnsureDir(fs, exportDir)
    case Failure(_) =>
    case Success(fs1) =>
      match EnsureDir(fs1, VideosDir(exportDir))
      case Failure(_) =>
      case Success(fs2) =>
        assert fs2.files == fs.files && fs2.birthTimes == fs.birthTimes;
        var c0 := Copying(fs2, map[], map[], [10]);
        CopyVideosContents(c0, fs, exportDir, files, clock, rands, 0);
        match CopyVideos(c0, VideosDir(exportDir), files, clock, rands, 0)
        case Aborted(_, _, _) =>
        case Done(c) =>
          var page := PlayerPage(PlayerDocument(graph, c.videoMapping, c.creationTimes));
          match WriteFile(c.fs, IndexPath(exportDir), page)
          case Failure(_) =>
          case Success(fs4) =>
            assert r.fs == fs4 && fs4.files[IndexPath(exportDir)] == page;
            CopiedFromIndex(c.videoMapping, c.creationTimes, c.fs, fs4, fs, exportDir, files, clock, rands, |files|, page);
  }

  /**
   * A node none of whose entries has a source that exists (outside the export directory) is
   * left out of the mapping, and the export goes on.
   */
  lemma MissingSourceNotMapped(fs: Fs, exportDir: Path, graph: seq<Cell>, files: seq<VideoFile>, clock: seq<nat>, rands: seq<nat>, k: string)
    requires |clock| == |files| && |rands| == |files|
    requires forall j :: 0 <= j < |files| && files[j].nodeId == k ==>
               files[j].filePath == "" || (!Exists(fs, files[j].filePath) && !Inside(files[j].filePath, exportDir))
    ensures var r := ExportRun(fs, exportDir, graph, files, clock, rands);
      r.outcome.Exported? ==> WrittenDocument(r, exportDir).Some? && k !in WrittenDocument(r, exportDir).value.videoMapping
  {
    var r := ExportRun(fs, exportDir, graph, files, clock, rands);
    match EnsureDir(fs, exportDir)
    case Failure(_) =>
    case Success(fs1) =>
      match EnsureDir(fs1, VideosDir(exportDir))
      case Failure(_) =>
      case Success(fs2) =>
        ExportPathsInside(exportDir);
        EnsureDirInside(fs, exportDir, exportDir);
        EnsureDirInside(fs1, VideosDir(exportDir), exportDir);
        var c0 := Copying(fs2, map[], map[], [10]);
        CopyVideosSkipsMissing(c0, fs, exportDir, VideosDir(exportDir), files, clock, rands, 0, k);
        match CopyVideos(c0, VideosDir(exportDir), files, clock, rands, 0)
        case Aborted(_, _, _) =>
        case Done(c) =>
          var page := PlayerPage(PlayerDocument(graph, c.videoMapping, c.creationTimes));
          match WriteFile(c.fs, IndexPath(exportDir), page)
          case Failure(_) =>
          case Success(fs4) =>
            assert r.fs == fs4 && fs4.files[IndexPath(exportDir)] == page;
  }

  /** Every directory under the export directory is the export directory or its `videos` directory. */
  ghost predicate OnlyExportDirs(fs: Fs, exportDir: Path) {
    forall p :: p in fs.dirs && Inside(p, exportDir) ==> p == exportDir || p == VideosDir(exportDir)
  }

  /** No regular file sits at the `videos` directory or at one of its ancestors. */
  ghost predicate NoFileOverVideos(fs: Fs, exportDir: Path) {
    forall q :: q in fs.files ==> q != VideosDir(exportDir) && !Under(VideosDir(exportDir), q + "/")
  }

  /** Copying an existing file into the `videos` directory succeeds and keeps both conditions. */
  lemma CopyIntoVideosSucceeds(fs: Fs, exportDir: Path, src: Path, name: Path)
    requires fs.faults == map[] && OnlyExportDirs(fs, exportDir) && NoFileOverVideos(fs, exportDir)
    requires src in fs.files && '/' !in name
    ensures var r := CopyFile(fs, src, Join(VideosDir(exportDir), name));
      && r.Success? && r.value.faults == map[] && r.value.dirs == fs.dirs
      && OnlyExportDirs(r.value, exportDir) && NoFileOverVideos(r.value, exportDir)
  {
    var V := VideosDir(exportDir);
    var dst := Join(V, name);
    forall q | q in fs.files
      ensures !Under(dst, q + "/")
    {
      JoinAncestors(V, name, q);
    }
    ExportPathsInside(exportDir);
    JoinEndsWithName(exportDir, "videos");
    assert V[|V| - 1] == 's' by {
      assert V[|V| - 1] == V[|V| - |"videos"|..][5];
    }
    assert |dst| > |V|;
    if name != [] {
      assert name[0] in name;
    }
    JoinInside(V, name);
    InsideTransitive(dst, V, exportDir);
    assert dst !in fs.dirs;
  }

  /**
   * Without faults, with directories under the export directory only where the export puts
   * them and no file over the `videos` directory, every copy succeeds, and these conditions hold
   * after the loop as well.
   */
  lemma {:induction false} CopyVideosSucceeds(c: Copying, exportDir: Path, files: seq<VideoFile>, clock: seq<nat>, rands: seq<nat>, i: nat)
    requires i <= |files| && |clock| == |files| && |rands| == |files|
    requires c.fs.faults == map[] && OnlyExportDirs(c.fs, exportDir) && NoFileOverVideos(c.fs, exportDir)
    requires forall j :: i <= j < |files| ==> !Inside(files[j].filePath, exportDir) && files[j].filePath !in c.fs.dirs
    ensures CopyVideos(c, VideosDir(exportDir), files, clock, rands, i).Done?
    ensures var c' := CopyVideos(c, VideosDir(exportDir), files, clock, rands, i).state;
      c'.fs.faults == map[] && c'.fs.dirs == c.fs.dirs && OnlyExportDirs(c'.fs, exportDir) && NoFileOverVideos(c'.fs, exportDir)
    decreases |files| - i
  {
    if i < |files| {
      var v := files[i];
      var V := VideosDir(exportDir);
      var step := CopyVideo(c, V, v, i, |files|, clock[i], rands[i]);
      if v.filePath != "" && Exists(c.fs, v.filePath) {
        VideoFileNameHasNoSeparator(clock[i], rands[i], v.filePath);
        CopyIntoVideosSucceeds(c.fs, exportDir, v.filePath, VideoFileName(clock[i], rands[i], Basename(v.filePath)));
      }
      assert step.Done?;
      var fs' := step.state.fs;
      assert fs'.faults == map[] && fs'.dirs == c.fs.dirs && OnlyExportDirs(fs', exportDir) && NoFileOverVideos(fs', exportDir);
      CopyVideosSucceeds(step.state, exportDir, files, clock, rands, i + 1);
      assert CopyVideos(c, V, files, clock, rands, i) == CopyVideos(step.state, V, files, clock, rands, i + 1);
    }
  }

  /**
   * An export to a non-empty directory path succeeds, however many sources are missing, when no path faults, the only
   * directories under the export directory are the two the export creates, no regular file
   * lies at or above the `videos` directory, and every source is outside the export directory
   * and not a directory.
   */
  lemma ExportSucceedsWithoutFaults(fs: Fs, exportDir: Path, graph: seq<Cell>, files: seq<VideoFile>, clock: seq<nat>, rands: seq<nat>)
    requires |clock| == |files| && |rands| == |files| && exportDir != []
    requires fs.faults == map[] && OnlyExportDirs(fs, exportDir) && NoFileOverVideos(fs, exportDir)
    requires forall j :: 0 <= j < |files| ==> !Inside(files[j].filePath, exportDir) && files[j].filePath !in fs.dirs
    ensures ExportRun(fs, exportDir, graph, files, clock, rands).outcome == Exported(IndexPath(exportDir))
  {
    var V := VideosDir(exportDir);
    ExportPathsInside(exportDir);
    var fs1 := EnsureDir(fs, exportDir).value;
    var fs2 := EnsureDir(fs1, V).value;
    assert fs2.files == fs.files && fs2.dirs <= fs.dirs + {exportDir, V};
    var c0 := Copying(fs2, map[], map[], [10]);
    CopyVideosSucceeds(c0, exportDir, files, clock, rands, 0);
    var c := CopyVideos(c0, V, files, clock, rands, 0).state;
    var I := IndexPath(exportDir);
    forall q | q in c.fs.files
      ensures !Under(I, q + "/")
    {
      JoinAncestors(exportDir, "index.html", q);
      JoinAncestors(exportDir, "videos", q);
    }
    assert I !in c.fs.dirs;
  }

  /**
   * A regular file where the export directory should be passes the existence test, and then
   * creating the `videos` directory below it fails with ENOTDIR, so the export fails.
   */
  lemma FileAtExportDirFails(fs: Fs, exportDir: Path, graph: seq<Cell>, files: seq<VideoFile>, clock: seq<nat>, rands: seq<nat>)
    requires |clock| == |files| && |rands| == |files|
    requires exportDir in fs.files && exportDir != [] && exportDir[|exportDir| - 1] != '/'
    requires VideosDir(exportDir) !in fs.faults && !Exists(fs, VideosDir(exportDir))
    ensures ExportRun(fs, exportDir, graph, files, clock, rands).outcome == ExportFailed(NotDirectoryError)
  {
    JoinAncestors(exportDir, "videos", exportDir);
    assert FileAbove(fs, VideosDir(exportDir));
  }

  /**
   * The empty export directory does not exist for `existsSync`, and `mkdirSync` rejects it with
   * ENOENT, so the export fails before anything is copied, with the single progress value 0.
   */
  lemma EmptyExportDirFails(fs: Fs, graph: seq<Cell>, files: seq<VideoFile>, clock: seq<nat>, rands: seq<nat>)
    requires |clock| == |files| && |rands| == |files|
    ensures var r := ExportRun(fs, "", graph, files, clock, rands);
      r.outcome == ExportFailed(NoEntryError) && r.progress == [0] && r.fs == fs
  {
  }
}
