/** The recursive counter of check_file_count, over finite directory trees. */
module FileCount {
  import Glob

  /** What `opendir` and `readdir` give for a directory; the listing may hold `.` and `..`. */
  datatype Directory = Unreadable | Readable(entries: seq<Entry>)

  datatype Entry = File(name: string) | Folder(name: string, contents: Directory)

  predicate IsDots(name: string) {
    name == "." || name == ".."
  }

  predicate NameMatches(name: string, pat: string) {
    pat == "" || Glob.Greedy(pat, name)
  }

  // ----- Specification -----

  /** All entries that can be reached: those listed and, with recursion, those of readable folders. */
  function Reachable(dir: Directory, rec: bool): seq<Entry> {
    match dir
    case Unreadable => []
    case Readable(entries) => ReachableIn(entries, rec)
  }

  function ReachableIn(entries: seq<Entry>, rec: bool): seq<Entry> {
    if entries == [] then []
    else
      var e := entries[0];
      (if IsDots(e.name) then [] else [e] + if rec && e.Folder? then Reachable(e.contents, rec) else [])
      + ReachableIn(entries[1..], rec)
  }

  predicate Wanted(e: Entry, pat: string, countDirs: bool) {
    (e.File? || countDirs) && NameMatches(e.name, pat)
  }

  function Select(es: seq<Entry>, pat: string, countDirs: bool): seq<Entry> {
    if es == [] then []
    else (if Wanted(es[0], pat, countDirs) then [es[0]] else []) + Select(es[1..], pat, countDirs)
  }

  // ----- The code -----

  /** -1 if the directory cannot be read, otherwise the number of wanted entries that can be reached. */
  method CountFiles(dir: Directory, pat: string, rec: bool, countDirs: bool) returns (count: int)
    ensures count == if dir.Unreadable? then -1 else |Select(Reachable(dir, rec), pat, countDirs)|
    ensures count == Count(dir, pat, rec, countDirs)
    decreases dir
  {
    if dir.Unreadable? { return -1; }
    count := 0;
    var i := 0;
    assert dir.entries[0..] == dir.entries;
    while i < |dir.entries|
      invariant 0 <= i <= |dir.entries|
      invariant count + CountIn(dir.entries[i..], pat, rec, countDirs) == CountIn(dir.entries, pat, rec, countDirs)
    {
      var entry := dir.entries[i];
      assert dir.entries[i..][0] == entry && dir.entries[i..][1..] == dir.entries[i + 1..];
      CountStep(dir.entries[i..], pat, rec, countDirs);
      i := i + 1;
      if !IsDots(entry.name) {
        if entry.Folder? && rec {
          var subCount := CountFiles(entry.contents, pat, rec, countDirs);
          if subCount >= 0 { count := count + subCount; }
        }
        var matches := Glob.MatchesPattern(entry.name, pat);
        if (entry.File? || countDirs) && matches { count := count + 1; }
      }
    }
  }

  function CountIn(entries: seq<Entry>, pat: string, rec: bool, countDirs: bool): nat {
    |Select(ReachableIn(entries, rec), pat, countDirs)|
  }

  /** What one entry adds to the count. */
  function Weight(e: Entry, pat: string, rec: bool, countDirs: bool): nat {
    if IsDots(e.name) then 0
    else
      (if e.Folder? && rec then |Select(Reachable(e.contents, rec), pat, countDirs)| else 0)
      + (if Wanted(e, pat, countDirs) then 1 else 0)
  }

  lemma {:induction false} SelectConcat(a: seq<Entry>, b: seq<Entry>, pat: string, countDirs: bool)
    ensures Select(a + b, pat, countDirs) == Select(a, pat, countDirs) + Select(b, pat, countDirs)
  {
    if a == [] {
      assert a + b == b;
    } else {
      var first := if Wanted(a[0], pat, countDirs) then [a[0]] else [];
      assert (a + b)[0] == a[0] && (a + b)[1..] == a[1..] + b;
      SelectConcat(a[1..], b, pat, countDirs);
      assert Select(a + b, pat, countDirs) == first + (Select(a[1..], pat, countDirs) + Select(b, pat, countDirs));
    }
  }

  lemma CountStep(entries: seq<Entry>, pat: string, rec: bool, countDirs: bool)
    requires entries != []
    ensures CountIn(entries, pat, rec, countDirs)
         == Weight(entries[0], pat, rec, countDirs) + CountIn(entries[1..], pat, rec, countDirs)
  {
    var e := entries[0];
    var inside := if rec && e.Folder? then Reachable(e.contents, rec) else [];
    var here := if IsDots(e.name) then [] else [e] + inside;
    assert ReachableIn(entries, rec) == here + ReachableIn(entries[1..], rec);
    SelectConcat(here, ReachableIn(entries[1..], rec), pat, countDirs);
    assert ([e] + inside)[1..] == inside;
  }

  function Count(dir: Directory, pat: string, rec: bool, countDirs: bool): int {
    if dir.Unreadable? then -1 else CountIn(dir.entries, pat, rec, countDirs)
  }

  function Max(x: int, y: int): int {
    if x < y then y else x
  }

  /** What an entry at any place of a listing adds: nothing when it is `.` or `..`, otherwise one if it
      is to be counted and its name matches, and with recursion the count of a readable folder. */
  lemma EntryAdds(a: seq<Entry>, e: Entry, b: seq<Entry>, pat: string, rec: bool, countDirs: bool)
    ensures Count(Readable([]), pat, rec, countDirs) == 0
    ensures var added := Count(Readable(a + [e] + b), pat, rec, countDirs) - Count(Readable(a + b), pat, rec, countDirs);
            var matches := if pat == "" || Glob.Greedy(pat, e.name) then 1 else 0;
            if e.name == "." || e.name == ".." then added == 0
            else if e.File? then added == matches
            else added == (if rec then Max(0, Count(e.contents, pat, rec, countDirs)) else 0) + (if countDirs then matches else 0)
  {
    var entries := a + [e] + b;
    CountRemove(entries, |a|, pat, rec, countDirs);
    assert entries[|a|] == e && entries[..|a|] + entries[|a| + 1..] == a + b;
  }

  // ----- The order of the listings -----

  /** The same tree, with the listing of every directory in some other order. */
  ghost predicate Reordered(dir: Directory, dir': Directory)
    decreases dir, 1
  {
    match (dir, dir')
    case (Unreadable, Unreadable) => true
    case (Readable(entries), Readable(entries')) =>
      exists mid: seq<Entry> :: IsPermutation(mid, entries') && ReorderedInside(entries, mid)
    case _ => false
  }

  ghost predicate IsPermutation(a: seq<Entry>, b: seq<Entry>) {
    multiset(a) == multiset(b)
  }

  ghost predicate ReorderedInside(entries: seq<Entry>, entries': seq<Entry>)
    decreases entries, 0
  {
    |entries| == |entries'| &&
    (entries != [] ==>
      match (entries[0], entries'[0])
      case (File(name), File(name')) => name == name' && ReorderedInside(entries[1..], entries'[1..])
      case (Folder(name, contents), Folder(name', contents')) =>
        name == name' && Reordered(contents, contents') && ReorderedInside(entries[1..], entries'[1..])
      case _ => false)
  }

  lemma {:induction false} CountRemove(entries: seq<Entry>, i: nat, pat: string, rec: bool, countDirs: bool)
    requires i < |entries|
    ensures CountIn(entries, pat, rec, countDirs)
         == Weight(entries[i], pat, rec, countDirs) + CountIn(entries[..i] + entries[i + 1..], pat, rec, countDirs)
  {
    CountStep(entries, pat, rec, countDirs);
    var without := entries[..i] + entries[i + 1..];
    if i == 0 {
      assert without == entries[1..];
    } else {
      CountRemove(entries[1..], i - 1, pat, rec, countDirs);
      CountStep(without, pat, rec, countDirs);
      assert without[1..] == entries[1..][..i - 1] + entries[1..][i..];
    }
  }

  lemma {:induction false} CountOfPermutation(a: seq<Entry>, b: seq<Entry>, pat: string, rec: bool, countDirs: bool)
    requires IsPermutation(a, b)
    ensures CountIn(a, pat, rec, countDirs) == CountIn(b, pat, rec, countDirs)
    decreases |a|
  {
    if a == [] {
      assert |multiset(b)| == |b|;
    } else {
      var i := Matched(a, b);
      CountStep(a, pat, rec, countDirs);
      CountRemove(b, i, pat, rec, countDirs);
      CountOfPermutation(a[1..], b[..i] + b[i + 1..], pat, rec, countDirs);
    }
  }

  lemma Matched(a: seq<Entry>, b: seq<Entry>) returns (i: nat)
    requires IsPermutation(a, b) && a != []
    ensures i < |b| && b[i] == a[0] && IsPermutation(a[1..], b[..i] + b[i + 1..])
  {
    assert a[0] in multiset(b);
    i :| 0 <= i < |b| && b[i] == a[0];
    assert a == [a[0]] + a[1..];
    assert b == b[..i] + [b[i]] + b[i + 1..];
    assert multiset(a[1..]) == multiset(a) - multiset{a[0]};
    assert multiset(b[..i] + b[i + 1..]) == multiset(b) - multiset{b[i]};
  }

  /** The count does not depend on the order in which directories are listed, at any depth. */
  lemma {:induction false} OrderIsIrrelevant(dir: Directory, dir': Directory, pat: string, rec: bool, countDirs: bool)
    requires Reordered(dir, dir')
    ensures Count(dir, pat, rec, countDirs) == Count(dir', pat, rec, countDirs)
    decreases dir, 1
  {
    if dir.Readable? {
      var mid: seq<Entry> :| IsPermutation(mid, dir'.entries) && ReorderedInside(dir.entries, mid);
      OrderInsideIsIrrelevant(dir.entries, mid, pat, rec, countDirs);
      CountOfPermutation(mid, dir'.entries, pat, rec, countDirs);
    }
  }

  lemma {:induction false} OrderInsideIsIrrelevant(entries: seq<Entry>, entries': seq<Entry>, pat: string, rec: bool, countDirs: bool)
    requires ReorderedInside(entries, entries')
    ensures CountIn(entries, pat, rec, countDirs) == CountIn(entries', pat, rec, countDirs)
    decreases entries, 0
  {
    if entries != [] {
      CountStep(entries, pat, rec, countDirs);
      CountStep(entries', pat, rec, countDirs);
      OrderInsideIsIrrelevant(entries[1..], entries'[1..], pat, rec, countDirs);
      if entries[0].Folder? {
        OrderIsIrrelevant(entries[0].contents, entries'[0].contents, pat, rec, countDirs);
      }
    }
  }

  // ----- Switches -----

  /** Recursion and counting directories never make the count smaller. */
  lemma {:induction false} SwitchesOnlyAdd(dir: Directory, pat: string, rec: bool, countDirs: bool)
    ensures Count(dir, pat, rec, countDirs) <= Count(dir, pat, true, countDirs)
    ensures Count(dir, pat, rec, countDirs) <= Count(dir, pat, rec, true)
    decreases dir, 1
  {
    if dir.Readable? { SwitchesOnlyAddIn(dir.entries, pat, rec, countDirs); }
  }

  lemma {:induction false} SwitchesOnlyAddIn(entries: seq<Entry>, pat: string, rec: bool, countDirs: bool)
    ensures CountIn(entries, pat, rec, countDirs) <= CountIn(entries, pat, true, countDirs)
    ensures CountIn(entries, pat, rec, countDirs) <= CountIn(entries, pat, rec, true)
    decreases entries, 0
  {
    if entries != [] {
      CountStep(entries, pat, rec, countDirs);
      CountStep(entries, pat, true, countDirs);
      CountStep(entries, pat, rec, true);
      SwitchesOnlyAddIn(entries[1..], pat, rec, countDirs);
      if entries[0].Folder? { SwitchesOnlyAdd(entries[0].contents, pat, rec, countDirs); }
    }
  }
}
