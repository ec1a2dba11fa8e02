/** The accounting and the verdict of check_disk. */
module Disk {
  import opened Text
  import opened Plugin
  import opened Machine

  const MB := 1024 * 1024

  /** The fields of `struct statvfs` that are read. */
  datatype Statvfs = Statvfs(f_blocks: uint64, f_bfree: uint64, f_bavail: uint64, f_frsize: uint64)

  /** A percentage as a double: x / 0 is infinite for x > 0 and not a number for 0. */
  datatype Percent = NotANumber | MinusInfinity | Percent(value: real) {
    /** `p < bound` on doubles. */
    predicate Below(bound: real) {
      match this
      case NotANumber => false
      case MinusInfinity => true
      case Percent(value) => value < bound
    }
  }

  datatype DiskInfo = DiskInfo(total: int, used: int, available: int, freePercent: Percent)

  function Mul64(a: uint64, b: uint64): uint64 {
    (a * b) % TWO_TO_THE_64
  }

  method GetDiskInfo(vfs: Statvfs) returns (info: DiskInfo)
    ensures info == InfoOf(vfs)
    ensures Consistent(vfs) ==>
              var reserved := (vfs.f_bfree - vfs.f_bavail) * vfs.f_frsize / MB;
              && info.used + info.available + reserved <= info.total <= info.used + info.available + reserved + 2
              && (info.total > 0 ==> info.freePercent.Percent? && 0.0 <= info.freePercent.value <= 100.0)
  {
    var totalBytes := Mul64(vfs.f_blocks, vfs.f_frsize);
    var freeBytes := Mul64(vfs.f_bavail, vfs.f_frsize);
    var usedBytes := (totalBytes - Mul64(vfs.f_bfree, vfs.f_frsize)) % TWO_TO_THE_64;
    info := DiskInfo(0, 0, 0, NotANumber);
    info := info.(total := totalBytes / MB);
    info := info.(available := freeBytes / MB);
    info := info.(used := usedBytes / MB);
    info := info.(freePercent :=
      if info.total == 0 then if info.used == 0 then NotANumber else MinusInfinity
      else Percent(100.0 - info.used as real / info.total as real * 100.0));
    if Consistent(vfs) { Accounting(vfs); }
  }

  function InfoOf(vfs: Statvfs): DiskInfo {
    var totalBytes := Mul64(vfs.f_blocks, vfs.f_frsize);
    var total := totalBytes / MB;
    var used := (totalBytes - Mul64(vfs.f_bfree, vfs.f_frsize)) % TWO_TO_THE_64 / MB;
    DiskInfo(total, used, Mul64(vfs.f_bavail, vfs.f_frsize) / MB, FreePercent(used, total))
  }

  function FreePercent(used: int, total: int): Percent {
    if total == 0 then if used == 0 then NotANumber else MinusInfinity
    else Percent(100.0 - used as real / total as real * 100.0)
  }

  /** A file system whose figures are consistent and whose size fits in 64 bits. */
  predicate Consistent(vfs: Statvfs) {
    vfs.f_bavail <= vfs.f_bfree <= vfs.f_blocks && vfs.f_blocks * vfs.f_frsize < TWO_TO_THE_64
  }

  /** Flooring to megabytes loses at most two of them, and never counts a block twice: what is neither
      used nor available is reserved. */
  lemma Accounting(vfs: Statvfs)
    requires Consistent(vfs)
    ensures var info := InfoOf(vfs);
            var reserved := (vfs.f_bfree - vfs.f_bavail) * vfs.f_frsize / MB;
            && 0 <= info.used && 0 <= info.available
            && info.used + info.available + reserved <= info.total <= info.used + info.available + reserved + 2
    ensures InfoOf(vfs).freePercent.Percent? <==> InfoOf(vfs).total > 0
    ensures InfoOf(vfs).total > 0 ==> 0.0 <= InfoOf(vfs).freePercent.value <= 100.0
    ensures InfoOf(vfs).total == 0 ==> InfoOf(vfs).freePercent == NotANumber
  {
    NothingWraps(vfs);
    var info := InfoOf(vfs);
    ThreeParts(vfs.f_blocks * vfs.f_frsize, vfs.f_bfree * vfs.f_frsize, vfs.f_bavail * vfs.f_frsize);
    if info.total > 0 { PercentBounds(info.used, info.total); }
  }

  lemma ThreeParts(b: nat, f: nat, a: nat)
    requires a <= f <= b
    ensures var parts := (b - f) / MB + a / MB + (f - a) / MB; parts <= b / MB <= parts + 2
    ensures (b - f) / MB <= b / MB
  {
  }

  lemma NothingWraps(vfs: Statvfs)
    requires Consistent(vfs)
    ensures var b, f, a := vfs.f_blocks * vfs.f_frsize, vfs.f_bfree * vfs.f_frsize, vfs.f_bavail * vfs.f_frsize;
            && 0 <= a <= f <= b < TWO_TO_THE_64 && (vfs.f_bfree - vfs.f_bavail) * vfs.f_frsize == f - a
            && InfoOf(vfs).total == b / MB && InfoOf(vfs).used == (b - f) / MB && InfoOf(vfs).available == a / MB
  {
    ProductMonotone(vfs.f_bavail, vfs.f_bfree, vfs.f_frsize);
    ProductMonotone(vfs.f_bfree, vfs.f_blocks, vfs.f_frsize);
    Distribute(vfs.f_bfree, vfs.f_bavail, vfs.f_frsize);
    SmallIsItself(vfs.f_blocks * vfs.f_frsize);
    SmallIsItself(vfs.f_bfree * vfs.f_frsize);
    SmallIsItself(vfs.f_bavail * vfs.f_frsize);
    SmallIsItself(vfs.f_blocks * vfs.f_frsize - vfs.f_bfree * vfs.f_frsize);
  }

  lemma SmallIsItself(x: nat)
    requires x < TWO_TO_THE_64
    ensures x % TWO_TO_THE_64 == x
  {
  }

  lemma Distribute(x: int, y: int, s: int)
    ensures (x - y) * s == x * s - y * s
  {
  }

  lemma ProductMonotone(x: nat, y: nat, s: nat)
    requires x <= y
    ensures 0 <= x * s <= y * s
  {
  }

  lemma PercentBounds(used: nat, total: nat)
    requires used <= total && total > 0
    ensures 0.0 <= 100.0 - used as real / total as real * 100.0 <= 100.0
  {
  }

  // ----- The verdict -----

  datatype Thresholds = Thresholds(warningPercent: real, criticalPercent: real, warningFree: int, criticalFree: int)

  /** The verdict for one path; None is a path whose figures could not be read. */
  function PathCode(info: Option<DiskInfo>, t: Thresholds): ExitCode {
    match info
    case None => UNKNOWN
    case Some(info) =>
      if t.criticalFree > 0 && info.available < t.criticalFree then CRITICAL
      else if t.criticalPercent > 0.0 && info.freePercent.Below(t.criticalPercent) then CRITICAL
      else if t.warningFree > 0 && info.available < t.warningFree then WARNING
      else if t.warningPercent > 0.0 && info.freePercent.Below(t.warningPercent) then WARNING
      else OK
  }

  /** A measure is exceeded: a minimum of free megabytes or, multiplied out, of free percent; one that
      is not positive is off. */
  predicate Exceeded(info: DiskInfo, free: int, percent: real) {
    || (free > 0 && info.available < free)
    || (percent > 0.0 && 100.0 * info.used as real > (100.0 - percent) * info.total as real)
  }

  /** What the thresholds mean, whatever the figures: critical if a critical one is exceeded, otherwise
      a warning if a warning one is; unknown only without figures. */
  lemma ThresholdsMean(vfs: Statvfs, t: Thresholds)
    ensures var info := InfoOf(vfs); var code := PathCode(Some(info), t);
            && (code == CRITICAL <==> Exceeded(info, t.criticalFree, t.criticalPercent))
            && (code == WARNING <==> (Exceeded(info, t.warningFree, t.warningPercent)
                                      && !Exceeded(info, t.criticalFree, t.criticalPercent)))
            && code != UNKNOWN
    ensures PathCode(None, t) == UNKNOWN
  {
    ExceededMeans(vfs, t.criticalFree, t.criticalPercent);
    ExceededMeans(vfs, t.warningFree, t.warningPercent);
  }

  lemma ExceededMeans(vfs: Statvfs, free: int, percent: real)
    ensures var info := InfoOf(vfs);
            Exceeded(info, free, percent)
            <==> (free > 0 && info.available < free) || (percent > 0.0 && info.freePercent.Below(percent))
  {
    PercentOf(vfs);
    BelowMeans(InfoOf(vfs).used, InfoOf(vfs).total, percent);
  }

  lemma BelowMeans(used: int, total: int, bound: real)
    requires used >= 0 && total >= 0
    ensures FreePercent(used, total).Below(bound) <==> 100.0 * used as real > (100.0 - bound) * total as real
  {
    if total > 0 { MultipliedOut(used as real, total as real, bound); }
  }

  lemma MultipliedOut(used: real, total: real, bound: real)
    requires total > 0.0
    ensures 100.0 - used / total * 100.0 < bound <==> 100.0 * used > (100.0 - bound) * total
  {
    var q := used / total;
    var x := 100.0 * q - (100.0 - bound);
    assert q * total == used;
    assert x * total == 100.0 * used - (100.0 - bound) * total;
    SignOfProduct(x, total);
  }

  lemma SignOfProduct(x: real, y: real)
    requires y > 0.0
    ensures x * y > 0.0 <==> x > 0.0
  {
  }

  /** The figures, in units of 1048576 bytes. */
  lemma FiguresInMegabytes(vfs: Statvfs)
    requires Consistent(vfs)
    ensures var info := InfoOf(vfs);
            && info.total == vfs.f_blocks * vfs.f_frsize / 1048576
            && info.used == (vfs.f_blocks - vfs.f_bfree) * vfs.f_frsize / 1048576
            && info.available == vfs.f_bavail * vfs.f_frsize / 1048576
  {
    NothingWraps(vfs);
    Distribute(vfs.f_blocks, vfs.f_bfree, vfs.f_frsize);
  }

  /** A size of 2^64 bytes wraps around to nothing, one byte less does not. */
  lemma SizeWraps(vfs: Statvfs)
    ensures vfs.f_blocks == 4294967296 && vfs.f_frsize == 4294967296 ==> InfoOf(vfs).total == 0
    ensures vfs.f_blocks == 18446744073709551615 && vfs.f_frsize == 1 ==> InfoOf(vfs).total == 17592186044415
  {
    if vfs.f_frsize == 1 {
      SmallIsItself(vfs.f_blocks);
      assert InfoOf(vfs).total == vfs.f_blocks / MB;
    } else if vfs.f_blocks == 4294967296 && vfs.f_frsize == 4294967296 {
      assert vfs.f_blocks * vfs.f_frsize == TWO_TO_THE_64;
      assert Mul64(vfs.f_blocks, vfs.f_frsize) == 0;
    }
  }

  function Severity(code: ExitCode): nat {
    match code case OK => 0 case WARNING => 1 case CRITICAL => 2 case UNKNOWN => 3
  }

  /** On a file system of the same size with fewer free blocks the verdict never gets better, whatever
      the thresholds. */
  lemma LessSpaceIsNeverBetter(more: Statvfs, less: Statvfs, t: Thresholds)
    requires Consistent(more) && Consistent(less)
    requires less.f_blocks == more.f_blocks && less.f_frsize == more.f_frsize
    requires less.f_bfree <= more.f_bfree && less.f_bavail <= more.f_bavail
    ensures Severity(PathCode(Some(InfoOf(more)), t)) <= Severity(PathCode(Some(InfoOf(less)), t)) <= 2
  {
    LessSpaceLessAvailable(more, less);
    LessSpaceLessPercent(more, less, t.criticalPercent);
    LessSpaceLessPercent(more, less, t.warningPercent);
  }

  lemma LessSpaceLessAvailable(more: Statvfs, less: Statvfs)
    requires Consistent(more) && Consistent(less)
    requires less.f_frsize == more.f_frsize && less.f_bavail <= more.f_bavail
    ensures InfoOf(less).available <= InfoOf(more).available
  {
    NothingWraps(more);
    NothingWraps(less);
    ProductMonotone(less.f_bavail, more.f_bavail, more.f_frsize);
    FloorMonotone(less.f_bavail * more.f_frsize, more.f_bavail * more.f_frsize);
  }

  lemma LessSpaceLessPercent(more: Statvfs, less: Statvfs, bound: real)
    requires Consistent(more) && Consistent(less)
    requires less.f_blocks == more.f_blocks && less.f_frsize == more.f_frsize
    requires less.f_bfree <= more.f_bfree
    ensures InfoOf(more).freePercent.Below(bound) ==> InfoOf(less).freePercent.Below(bound)
  {
    MoreUsed(more, less);
    PercentOf(more);
    PercentOf(less);
    LargerShare(InfoOf(more), InfoOf(less), bound);
  }

  lemma PercentOf(vfs: Statvfs)
    ensures InfoOf(vfs).freePercent == FreePercent(InfoOf(vfs).used, InfoOf(vfs).total)
  {
  }

  lemma MoreUsed(more: Statvfs, less: Statvfs)
    requires Consistent(more) && Consistent(less)
    requires less.f_blocks == more.f_blocks && less.f_frsize == more.f_frsize
    requires less.f_bfree <= more.f_bfree
    ensures InfoOf(less).total == InfoOf(more).total && 0 <= InfoOf(more).used <= InfoOf(less).used <= InfoOf(more).total
  {
    var b, size := more.f_blocks, more.f_frsize;
    NothingWraps(more);
    NothingWraps(less);
    ProductMonotone(less.f_bfree, more.f_bfree, size);
    MoreIsUsed(b * size, more.f_bfree * size, less.f_bfree * size);
  }

  lemma MoreIsUsed(b: nat, free: nat, free': nat)
    requires free' <= free <= b
    ensures (b - free) / MB <= (b - free') / MB <= b / MB
  {
  }

  lemma LargerShare(more: DiskInfo, less: DiskInfo, bound: real)
    requires more.total == less.total >= 0 && 0 <= more.used <= less.used <= more.total
    requires more.freePercent == FreePercent(more.used, more.total)
    requires less.freePercent == FreePercent(less.used, less.total)
    ensures more.freePercent.Below(bound) ==> less.freePercent.Below(bound)
  {
    if more.total > 0 { ShareMonotone(more.used, less.used, more.total); }
  }

  lemma FloorMonotone(x: nat, y: nat)
    requires x <= y
    ensures x / MB <= y / MB
  {
  }

  lemma ShareMonotone(x: int, y: int, total: int)
    requires x <= y && total > 0
    ensures x as real / total as real <= y as real / total as real
  {
  }

  /** The paths that are checked: the root file system when none is given. */
  function Checked(paths: seq<string>): seq<string> {
    if paths == [] then ["/"] else paths
  }

  /** The verdict for each path; `statvfs` is the system call, None its failure. */
  function Codes(paths: seq<string>, statvfs: string -> Option<Statvfs>, t: Thresholds): seq<ExitCode> {
    seq(|paths|, i requires 0 <= i < |paths| =>
      PathCode(match statvfs(paths[i]) case Some(vfs) => Some(InfoOf(vfs)) case None => None, t))
  }

  /** The verdict for each path is that of its figures. */
  lemma CodesMean(paths: seq<string>, statvfs: string -> Option<Statvfs>, t: Thresholds, i: nat)
    requires i < |paths|
    ensures var code := Codes(paths, statvfs, t)[i];
            match statvfs(paths[i])
            case None => code == UNKNOWN
            case Some(vfs) =>
              var info := InfoOf(vfs);
              code == if Exceeded(info, t.criticalFree, t.criticalPercent) then CRITICAL
                      else if Exceeded(info, t.warningFree, t.warningPercent) then WARNING
                      else OK
  {
    if statvfs(paths[i]).Some? { ThresholdsMean(statvfs(paths[i]).value, t); }
  }

  /** The overall code is CRITICAL if any path is critical, otherwise that of the first path that is
      not OK, otherwise OK. */
  ghost predicate Aggregates(overall: ExitCode, codes: seq<ExitCode>) {
    if CRITICAL in codes then overall == CRITICAL
    else if forall i :: 0 <= i < |codes| ==> codes[i] == OK then overall == OK
    else exists i :: 0 <= i < |codes| && codes[i] == overall != OK && forall j :: 0 <= j < i ==> codes[j] == OK
  }

  method Check(paths: seq<string>, statvfs: string -> Option<Statvfs>, t: Thresholds) returns (overallCode: ExitCode)
    ensures Aggregates(overallCode, Codes(if paths == [] then ["/"] else paths, statvfs, t))
  {
    var todo := Checked(paths);
    ghost var codes := Codes(todo, statvfs, t);
    overallCode := OK;
    var i := 0;
    while i < |todo|
      invariant 0 <= i <= |todo|
      invariant Aggregates(overallCode, codes[..i])
    {
      ghost var before := overallCode;
      var vfs := statvfs(todo[i]);
      if vfs.Some? {
        var info := GetDiskInfo(vfs.value);
        var isCritical, isWarning := false, false;
        if t.criticalFree > 0 && info.available < t.criticalFree {
          isCritical := true;
        } else if t.criticalPercent > 0.0 && info.freePercent.Below(t.criticalPercent) {
          isCritical := true;
        } else if t.warningFree > 0 && info.available < t.warningFree {
          isWarning := true;
        } else if t.warningPercent > 0.0 && info.freePercent.Below(t.warningPercent) {
          isWarning := true;
        }
        if isCritical {
          overallCode := CRITICAL;
        } else if isWarning && overallCode == OK {
          overallCode := WARNING;
        }
      } else {
        if overallCode == OK { overallCode := UNKNOWN; }
      }
      CodeAt(todo, statvfs, t, i);
      AggregateNext(before, codes, i);
      i := i + 1;
    }
    assert codes[..i] == codes;
  }

  lemma CodeAt(paths: seq<string>, statvfs: string -> Option<Statvfs>, t: Thresholds, i: nat)
    requires i < |paths|
    ensures Codes(paths, statvfs, t)[i]
         == PathCode(match statvfs(paths[i]) case Some(vfs) => Some(InfoOf(vfs)) case None => None, t)
  {
  }

  function Worse(overall: ExitCode, code: ExitCode): ExitCode {
    if code == CRITICAL then CRITICAL else if overall == OK then code else overall
  }

  lemma AggregateNext(overall: ExitCode, codes: seq<ExitCode>, i: nat)
    requires i < |codes| && Aggregates(overall, codes[..i])
    ensures Aggregates(Worse(overall, codes[i]), codes[..i + 1])
  {
    assert codes[..i + 1] == codes[..i] + [codes[i]];
    AggregateStep(overall, codes[..i], codes[i]);
  }

  lemma AggregateStep(overall: ExitCode, codes: seq<ExitCode>, code: ExitCode)
    requires Aggregates(overall, codes)
    ensures Aggregates(Worse(overall, code), codes + [code])
  {
    var all := codes + [code];
    assert CRITICAL in all <==> CRITICAL in codes || code == CRITICAL;
    if overall == OK {
      assert forall i :: 0 <= i < |codes| ==> codes[i] == OK;
      assert all[|codes|] == code;
    } else if overall != CRITICAL && code != CRITICAL {
      var i :| 0 <= i < |codes| && codes[i] == overall && forall j :: 0 <= j < i ==> codes[j] == OK;
      assert all[i] == overall && forall j :: 0 <= j < i ==> all[j] == OK;
    }
  }

  /** The rule leaves no choice. */
  lemma AggregateIsUnique(a: ExitCode, b: ExitCode, codes: seq<ExitCode>)
    requires Aggregates(a, codes) && Aggregates(b, codes)
    ensures a == b
  {
    if CRITICAL !in codes && !forall i :: 0 <= i < |codes| ==> codes[i] == OK {
      var i :| 0 <= i < |codes| && codes[i] == a != OK && forall j :: 0 <= j < i ==> codes[j] == OK;
      var k :| 0 <= k < |codes| && codes[k] == b != OK && forall j :: 0 <= j < k ==> codes[j] == OK;
      assert i == k;
    }
  }

  /** The order of the paths does not matter for CRITICAL and OK, but does for WARNING and UNKNOWN. */
  lemma OrderOfPaths(a: ExitCode, b: ExitCode, codes: seq<ExitCode>, codes': seq<ExitCode>)
    requires multiset(codes) == multiset(codes') && Aggregates(a, codes) && Aggregates(b, codes')
    ensures (a == CRITICAL <==> b == CRITICAL) && (a == OK <==> b == OK)
    ensures Aggregates(WARNING, [WARNING, UNKNOWN]) && Aggregates(UNKNOWN, [UNKNOWN, WARNING])
  {
    InAnyOrder(codes);
    InAnyOrder(codes');
    assert [WARNING, UNKNOWN][0] == WARNING && [UNKNOWN, WARNING][0] == UNKNOWN;
  }

  lemma InAnyOrder(codes: seq<ExitCode>)
    ensures CRITICAL in codes <==> CRITICAL in multiset(codes)
    ensures (forall i :: 0 <= i < |codes| ==> codes[i] == OK) <==> forall c :: c in multiset(codes) ==> c == OK
  {
    assert forall i :: 0 <= i < |codes| ==> codes[i] in multiset(codes);
  }
}
