/** The counting loop of check_consul, shared by the nomad, etcd, influxdb, kafka, solr and couchbase
    plugins: find the needle, step over it, find it again. */
module Occurrences {
  import opened Text

  /** A set of places where the needle occurs, no two of them overlapping. */
  ghost predicate IsPacking(text: string, needle: string, places: set<nat>) {
    && (forall p :: p in places ==> OccursAt(text, needle, p))
    && (forall p, q :: p in places && q in places && p < q ==> p + |needle| <= q)
  }

  /** The places the loop visits from `from` on. */
  ghost function Visited(text: string, needle: string, from: nat): (places: set<nat>)
    requires needle != ""
    ensures forall p :: p in places ==> from <= p
    decreases |text| - from
  {
    match Find(text, needle, from)
    case None => {}
    case Some(p) => {p} + Visited(text, needle, p + |needle|)
  }

  function Count(text: string, needle: string, from: nat): nat
    requires needle != ""
    decreases |text| - from
  {
    match Find(text, needle, from)
    case None => 0
    case Some(p) => 1 + Count(text, needle, p + |needle|)
  }

  /** The count is the size of the largest packing. */
  method CountOccurrences(text: string, needle: string) returns (count: nat)
    requires needle != ""
    ensures count == Count(text, needle, 0)
    ensures exists places :: IsPacking(text, needle, places) && |places| == count
    ensures forall places :: IsPacking(text, needle, places) ==> |places| <= count
  {
    count := 0;
    var pos := Find(text, needle, 0);
    ghost var from := 0;
    while pos.Some?
      invariant pos == Find(text, needle, from) && from <= |text|
      invariant Count(text, needle, 0) == count + Count(text, needle, from)
      decreases |text| - from
    {
      CountStep(text, needle, from, pos.value + |needle|);
      from := pos.value + |needle|;
      count := count + 1;
      pos := Find(text, needle, pos.value + |needle|);
    }
    CountIsLargest(text, needle);
  }

  lemma CountIsLargest(text: string, needle: string)
    requires needle != ""
    ensures exists places :: IsPacking(text, needle, places) && |places| == Count(text, needle, 0)
    ensures forall places :: IsPacking(text, needle, places) ==> |places| <= Count(text, needle, 0)
  {
    VisitedSize(text, needle, 0);
    VisitedIsPacking(text, needle, 0);
    forall places | IsPacking(text, needle, places)
      ensures |places| <= Count(text, needle, 0)
    {
      GreedyIsBest(text, needle, 0, places);
    }
  }

  lemma {:induction false} VisitedSize(text: string, needle: string, from: nat)
    requires needle != ""
    ensures |Visited(text, needle, from)| == Count(text, needle, from)
    decreases |text| - from
  {
    var r := Find(text, needle, from);
    if r.Some? {
      var rest := Visited(text, needle, r.value + |needle|);
      VisitedSize(text, needle, r.value + |needle|);
      SplitSize({r.value} + rest, {r.value});
      assert ({r.value} + rest) - {r.value} == rest;
    }
  }

  lemma {:induction false} VisitedIsPacking(text: string, needle: string, from: nat)
    requires needle != ""
    ensures IsPacking(text, needle, Visited(text, needle, from))
    decreases |text| - from
  {
    var r := Find(text, needle, from);
    if r.Some? {
      var rest := Visited(text, needle, r.value + |needle|);
      FindIsLeftmost(text, needle, from);
      VisitedIsPacking(text, needle, r.value + |needle|);
      assert Visited(text, needle, from) == {r.value} + rest;
    }
  }

  /** The exchange argument: of any packing, at most one place overlaps the first one visited. */
  lemma {:induction false} GreedyIsBest(text: string, needle: string, from: nat, places: set<nat>)
    requires needle != "" && IsPacking(text, needle, places)
    requires forall q :: q in places ==> from <= q
    ensures |places| <= Count(text, needle, from)
    decreases |text| - from
  {
    var r := Find(text, needle, from);
    if r.None? {
      FindIsLeftmost(text, needle, from);
      assert forall q :: q in places ==> OccursAt(text, needle, q);
      assert places == {};
    } else {
      var rest := PackingStep(text, needle, from, places);
      GreedyIsBest(text, needle, r.value + |needle|, rest);
    }
  }

  lemma PackingStep(text: string, needle: string, from: nat, places: set<nat>) returns (rest: set<nat>)
    requires needle != "" && IsPacking(text, needle, places) && Find(text, needle, from).Some?
    requires forall q :: q in places ==> from <= q
    ensures IsPacking(text, needle, rest) && |places| <= 1 + |rest|
    ensures forall q :: q in rest ==> Find(text, needle, from).value + |needle| <= q
  {
    var early := set q | q in places && q < Find(text, needle, from).value + |needle|;
    rest := places - early;
    AtMostOneEarly(text, needle, from, places, early);
    SplitSize(places, early);
  }

  lemma SplitSize(whole: set<nat>, part: set<nat>)
    requires part <= whole
    ensures |whole| == |part| + |whole - part|
  {
  }

  lemma AtMostOneEarly(text: string, needle: string, from: nat, places: set<nat>, early: set<nat>)
    requires needle != "" && IsPacking(text, needle, places) && Find(text, needle, from).Some?
    requires forall q :: q in places ==> from <= q
    requires early <= places && forall q :: q in early ==> q < Find(text, needle, from).value + |needle|
    ensures |early| <= 1
  {
    var p := Find(text, needle, from).value;
    FindIsLeftmost(text, needle, from);
    forall q | q in early
      ensures p <= q
    {
      assert OccursAt(text, needle, q);
    }
    if q :| q in early {
      assert forall q' :: q' in early ==> !(q < q') && !(q' < q);
      assert early == {q};
    }
  }

  // ----- When no occurrences overlap -----

  ghost function AllPlaces(text: string, needle: string): set<nat> {
    set p: nat | p <= |text| && OccursAt(text, needle, p)
  }

  /** If no two occurrences overlap, all are counted; otherwise some are not. */
  lemma CountsAllIff(text: string, needle: string)
    requires needle != ""
    ensures Count(text, needle, 0) == |AllPlaces(text, needle)| <==> IsPacking(text, needle, AllPlaces(text, needle))
  {
    var all, visited := AllPlaces(text, needle), Visited(text, needle, 0);
    VisitedSize(text, needle, 0);
    VisitedIsPacking(text, needle, 0);
    forall p | p in visited
      ensures p in all
    {
      assert OccursAt(text, needle, p);
    }
    assert all == visited + (all - visited);
    if IsPacking(text, needle, all) {
      GreedyIsBest(text, needle, 0, all);
    }
  }

  // ----- Printed arrays of records -----

  /** A character that is not in the needle separates the count in two. */
  lemma {:induction false} CountSplits(text: string, a: string, c: char, b: string, needle: string, from: nat)
    requires text == a + [c] + b && needle != "" && c !in needle && from <= |a|
    ensures Count(text, needle, from) == Count(a, needle, from) + Count(b, needle, 0)
    decreases |a| - from
  {
    var found := Find(a, needle, from);
    assert Find(text, needle, from) == if found.Some? then found else Shifted(Find(b, needle, 0), |a| + 1) by {
      FindSplits(a, c, b, needle, from);
    }
    if found.Some? {
      var next := found.value + |needle|;
      CountSplits(text, a, c, b, needle, next);
      CountStep(text, needle, from, next);
      CountStep(a, needle, from, next);
    } else {
      CountStep(a, needle, from, 0);
      CountBeyond(text, a + [c], b, needle, from, 0);
    }
  }

  lemma CountStep(text: string, needle: string, from: nat, next: nat)
    requires needle != ""
    requires var found := Find(text, needle, from); found.Some? ==> next == found.value + |needle|
    ensures Count(text, needle, from) == if Find(text, needle, from).Some? then 1 + Count(text, needle, next) else 0
  {
  }

  /** When the search goes on into `b`, so does the count. */
  lemma {:induction false} CountBeyond(text: string, a: string, b: string, needle: string, from: nat, from': nat)
    requires text == a + b && needle != ""
    requires Find(text, needle, from) == Shifted(Find(b, needle, from'), |a|)
    ensures Count(text, needle, from) == Count(b, needle, from')
    decreases |b| - from'
  {
    var found := Find(b, needle, from');
    if found.Some? {
      var next' := found.value + |needle|;
      var next := |a| + next';
      FindShifts(a, b, needle, next');
      CountBeyond(text, a, b, needle, next, next');
      SameStep(text, b, needle, from, from', next, next');
    } else {
      SameStep(text, b, needle, from, from', 0, 0);
    }
  }

  lemma SameStep(text: string, b: string, needle: string, from: nat, from': nat, next: nat, next': nat)
    requires needle != ""
    requires match Find(b, needle, from')
             case None => Find(text, needle, from) == None
             case Some(p) => next' == p + |needle| && Find(text, needle, from) == Some(next - |needle|)
                             && Count(text, needle, next) == Count(b, needle, next')
    ensures Count(text, needle, from) == Count(b, needle, from')
  {
    CountStep(text, needle, from, next);
    CountStep(b, needle, from', next');
  }

  function PrintRecords(records: seq<string>): string {
    if records == [] then "]"
    else if |records| == 1 then records[0] + "]"
    else records[0] + "," + PrintRecords(records[1..])
  }

  /** In a printed array whose records hold the quoted key once each, the loop counts the records. */
  lemma {:induction false} CountsTheRecords(records: seq<string>, needle: string)
    requires needle != "" && '[' !in needle && ',' !in needle && ']' !in needle
    requires forall i :: 0 <= i < |records| ==> Count(records[i], needle, 0) == 1
    ensures Count("[" + PrintRecords(records), needle, 0) == |records|
  {
    CountSplits("[" + PrintRecords(records), "", '[', PrintRecords(records), needle, 0);
    CountInRecords(records, needle);
  }

  lemma {:induction false} CountInRecords(records: seq<string>, needle: string)
    requires needle != "" && ',' !in needle && ']' !in needle
    requires forall i :: 0 <= i < |records| ==> Count(records[i], needle, 0) == 1
    ensures Count(PrintRecords(records), needle, 0) == |records|
  {
    if |records| <= 1 {
      var record := if records == [] then "" else records[0];
      CountSplits(PrintRecords(records), record, ']', "", needle, 0);
    } else {
      CountInRecords(records[1..], needle);
      CountSplits(PrintRecords(records), records[0], ',', PrintRecords(records[1..]), needle, 0);
    }
  }

  /** Quoted keys can overlap, and then the loop does count fewer than there are. */
  lemma OverlapUndercounts()
    ensures OccursAt("\"ID\"ID\"", "\"ID\"", 0) && OccursAt("\"ID\"ID\"", "\"ID\"", 3)
    ensures Count("\"ID\"ID\"", "\"ID\"", 0) == 1
  {
  }
}
