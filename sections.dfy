/** The section database of design/sections.py: a table loaded once and then
    only read, with a point lookup by size name, a parser for wide-flange size
    names, a prefix query for candidate sizes and the search for the most
    economical size that meets a property threshold. */
module Sections {
  import opened Results
  import opened SizePattern

  /** The key column of every section database. */
  const SizeColumn: string := "section size"

  /** One row of the table: its size name and its numeric properties. A cell
      that is missing (NaN once loaded) is a name absent from props; it
      compares false with every threshold. */
  datatype Row = Row(size: string, props: map<string, real>)

  /** The loaded database: the names of its property columns and its rows in
      file order. The key column SizeColumn is always present. */
  datatype Table = Table(columns: set<string>, rows: seq<Row>)

  /** The two encodings load_data reads. */
  datatype FileFormat = Csv | Jsonl

  /** The ValueError (and TypeError) conditions of the class. */
  datatype Error =
    | UnsupportedFileType  // load_data: the path ends neither in csv nor in jsonl
    | SizeNotFound         // get_section_property: no row, or several rows, of that size
    | NamingConvention     // get_section_depth_weight: not a wide-flange size name
    | TooManyDigits        // get_section_depth_weight: int() refuses a group longer than MaxStrDigits
    | MissingColumn        // search_member_size: the property is not a column
    | EmptyCandidates      // search_member_size: no row's size is a candidate
    | NotComparable        // search_member_size: the key column holds strings, not numbers

  // ---------------------------------------------------------------- load_data

  predicate EndsWith(s: string, suffix: string) {
    |suffix| <= |s| && s[|s| - |suffix|..] == suffix
  }

  /** No path ends in both "csv" and "jsonl": they differ in their last letter. */
  lemma SuffixesExclusive(path: string)
    ensures !(EndsWith(path, "csv") && EndsWith(path, "jsonl"))
  {
    if EndsWith(path, "csv") {
      assert path[|path| - 1] == "csv"[2];
    }
  }

  /** Which reader load_data hands the path to: a plain suffix test on the
      path's text, csv first, then jsonl, anything else an error. */
  function LoadFormat(path: string): (r: Result<FileFormat, Error>)
    ensures r == Ok(Csv) <==> EndsWith(path, "csv")
    ensures r == Ok(Jsonl) <==> EndsWith(path, "jsonl")
    ensures r.Err? <==> !EndsWith(path, "csv") && !EndsWith(path, "jsonl")
    ensures r.Err? ==> r.error == UnsupportedFileType
  {
    SuffixesExclusive(path);
    if EndsWith(path, "csv") then Ok(Csv)
    else if EndsWith(path, "jsonl") then Ok(Jsonl)
    else Err(UnsupportedFileType)
  }

  /** The usual file names load, ".json" does not, and the test is on the raw
      suffix rather than on the extension. */
  lemma LoadFormatOfFileNames(stem: string)
    ensures LoadFormat(stem + ".csv") == Ok(Csv)
    ensures LoadFormat(stem + ".jsonl") == Ok(Jsonl)
    ensures LoadFormat(stem + ".json").Err?
    ensures LoadFormat(stem + "_csv") == Ok(Csv)
  {
    assert (stem + ".csv")[|stem + ".csv"| - 3..] == "csv";
    assert (stem + "_csv")[|stem + "_csv"| - 3..] == "csv";
    assert (stem + ".jsonl")[|stem + ".jsonl"| - 5..] == "jsonl";
    assert (stem + ".json")[|stem + ".json"| - 1] == 'n';
  }

  // ------------------------------------------------------ get_section_property

  /** The number of rows from position from on whose size is size: the sum
      of the boolean mask. */
  function SizeCount(rows: seq<Row>, size: string, from: nat): (n: nat)
    requires from <= |rows|
    ensures n <= |rows| - from
    decreases |rows| - from
  {
    if from == |rows| then 0
    else (if rows[from].size == size then 1 else 0) + SizeCount(rows, size, from + 1)
  }

  /** The first position from from on whose size is size (|rows| if none):
      idxmax of the boolean mask. */
  function FirstWithSize(rows: seq<Row>, size: string, from: nat): (r: nat)
    requires from <= |rows|
    ensures from <= r <= |rows|
    ensures r < |rows| ==> rows[r].size == size
    ensures forall j :: from <= j < r ==> rows[j].size != size
    decreases |rows| - from
  {
    if from == |rows| || rows[from].size == size then from else FirstWithSize(rows, size, from + 1)
  }

  /** Exactly one row from position from on has this size. */
  ghost predicate UniqueSize(rows: seq<Row>, size: string, from: nat) {
    exists i :: from <= i < |rows| && rows[i].size == size
      && forall j :: from <= j < |rows| && rows[j].size == size ==> j == i
  }

  lemma {:induction false} SizeCountZero(rows: seq<Row>, size: string, from: nat)
    requires from <= |rows|
    ensures SizeCount(rows, size, from) == 0 <==> forall j :: from <= j < |rows| ==> rows[j].size != size
    decreases |rows| - from
  {
    if from < |rows| {
      SizeCountZero(rows, size, from + 1);
    }
  }

  /** The integrity check "the mask sums to one" holds exactly when the size
      occurs in a single row. */
  lemma {:induction false} SizeCountOne(rows: seq<Row>, size: string, from: nat)
    requires from <= |rows|
    ensures SizeCount(rows, size, from) == 1 <==> UniqueSize(rows, size, from)
    decreases |rows| - from
  {
    if from < |rows| {
      SizeCountOne(rows, size, from + 1);
      SizeCountZero(rows, size, from + 1);
      if rows[from].size == size {
        if SizeCount(rows, size, from) == 1 {
          assert UniqueSize(rows, size, from) by {
            assert forall j :: from <= j < |rows| && rows[j].size == size ==> j == from;
          }
        }
        if UniqueSize(rows, size, from) {
          var i :| from <= i < |rows| && rows[i].size == size
            && forall j :: from <= j < |rows| && rows[j].size == size ==> j == i;
          assert i == from;
        }
      } else {
        if UniqueSize(rows, size, from + 1) {
          var i :| from + 1 <= i < |rows| && rows[i].size == size
            && forall j :: from + 1 <= j < |rows| && rows[j].size == size ==> j == i;
          assert UniqueSize(rows, size, from) by {
            assert forall j :: from <= j < |rows| && rows[j].size == size ==> j == i;
          }
        }
        if UniqueSize(rows, size, from) {
          var i :| from <= i < |rows| && rows[i].size == size
            && forall j :: from <= j < |rows| && rows[j].size == size ==> j == i;
          assert UniqueSize(rows, size, from + 1);
        }
      }
    }
  }

  /** The full property row of size; an error unless exactly one row has
      that size. */
  function GetSectionProperty(t: Table, size: string): (r: Result<Row, Error>)
    ensures r.Ok? <==> UniqueSize(t.rows, size, 0)
    ensures r.Ok? ==> r.value.size == size && r.value in t.rows
    ensures r.Err? ==> r.error == SizeNotFound
  {
    SizeCountOne(t.rows, size, 0);
    if SizeCount(t.rows, size, 0) != 1 then Err(SizeNotFound)
    else Ok(t.rows[FirstWithSize(t.rows, size, 0)])
  }

  /** Under the lookup's success the row returned is the one row of that size. */
  lemma GetSectionPropertyIsTheRow(t: Table, size: string, i: nat)
    requires i < |t.rows| && t.rows[i].size == size
    ensures GetSectionProperty(t, size).Ok? ==> GetSectionProperty(t, size).value == t.rows[i]
  {
  }

  // -------------------------------------------------- get_section_depth_weight

  /** Depth and linear weight of a wide-flange size name: the two groups of
      the leftmost match of W(\d+)X(\d+) anywhere in the name, converted with
      int(), which refuses a group of more than MaxStrDigits digits. */
  function GetSectionDepthWeight(size: string): (r: Result<(nat, nat), Error>)
    ensures r.Err? ==> r.error == NamingConvention || r.error == TooManyDigits
  {
    match SearchPattern(size)
    case None => Err(NamingConvention)
    case Some(m) =>
      if m.a > MaxStrDigits || m.b > MaxStrDigits then Err(TooManyDigits)
      else Ok(Groups(size, m.start, m.a, m.b))
  }

  /** The parser reports the naming-convention error exactly when the name
      holds no 'W', digits, 'X', digits substring. */
  lemma DepthWeightFailsIffNoPattern(size: string)
    ensures GetSectionDepthWeight(size) == Err(NamingConvention) <==> !ContainsPattern(size)
  {
    if ContainsPattern(size) {
      var i, a, b :| PatternAt(size, i, a, b);
      SearchFromComplete(size, 0, i, a, b);
    }
  }

  /** A successful parse reports the groups of the leftmost greedy match,
      each of at most MaxStrDigits digits. */
  lemma DepthWeightIsLeftmostMatch(size: string)
    requires GetSectionDepthWeight(size).Ok?
    ensures exists i: nat, a: nat, b: nat ::
      (LeftmostMaximal(size, 0, i, a, b) && a <= MaxStrDigits && b <= MaxStrDigits
       && GetSectionDepthWeight(size).value == Groups(size, i, a, b))
  {
    SearchFromSound(size, 0);
    var m := SearchPattern(size).value;
    assert LeftmostMaximal(size, 0, m.start, m.a, m.b);
  }

  /** The leftmost greedy match decides the result, whatever follows it: its
      groups, or the digit-limit error when one of them is too long. */
  lemma DepthWeightOfLeftmostMatch(size: string, i: nat, a: nat, b: nat)
    requires LeftmostMaximal(size, 0, i, a, b)
    ensures GetSectionDepthWeight(size)
      == if a > MaxStrDigits || b > MaxStrDigits then Err(TooManyDigits) else Ok(Groups(size, i, a, b))
  {
    SearchFromFinds(size, 0, i, a, b);
  }

  /** Parsing the name "W" + str(depth) + "X" + str(weight) gives back the
      depth and the weight, unless a spelling is longer than int() accepts. */
  lemma DepthWeightRoundTrip(depth: nat, weight: nat)
    ensures var d, w := DecimalString(depth), DecimalString(weight);
      GetSectionDepthWeight("W" + d + "X" + w)
      == if |d| > MaxStrDigits || |w| > MaxStrDigits then Err(TooManyDigits) else Ok((depth, weight))
  {
    var d, w := DecimalString(depth), DecimalString(weight);
    var s := "W" + d + "X" + w;
    SizeNameMatches(depth, weight, []);
    assert s + [] == s;
    SearchFromFinds(s, 0, 0, |d|, |w|);
  }

  /** Junk around a size name is ignored, as long as the junk in front holds
      no match of its own and the junk behind does not start with a digit. */
  lemma DepthWeightIgnoresJunk(pre: string, depth: nat, weight: nat, post: string)
    requires !ContainsPattern(pre)
    requires post == [] || !IsDigit(post[0])
    ensures var d, w := DecimalString(depth), DecimalString(weight);
      GetSectionDepthWeight(pre + "W" + d + "X" + w + post)
      == if |d| > MaxStrDigits || |w| > MaxStrDigits then Err(TooManyDigits) else Ok((depth, weight))
  {
    EmbeddedSizeName(pre, depth, weight, post);
  }

  /** "AW14X730z" parses as depth 14 and weight 730. */
  lemma DepthWeightExample()
    ensures GetSectionDepthWeight("AW14X730z") == Ok((14, 730))
  {
    assert DecimalString(14) == "14";
    assert DecimalString(730) == "730";
    assert "AW14X730z" == "A" + "W" + DecimalString(14) + "X" + DecimalString(730) + "z";
    EmbeddedSizeName("A", 14, 730, "z");
  }

  /** A depth of MaxStrDigits ones still parses; one digit more and int()
      refuses the group, although the name follows the naming convention. */
  lemma DepthWeightDigitLimit()
    ensures GetSectionDepthWeight("W" + seq(MaxStrDigits, _ => '1') + "X1").Ok?
    ensures GetSectionDepthWeight("W" + seq(MaxStrDigits + 1, _ => '1') + "X1") == Err(TooManyDigits)
  {
    var ok, long := seq(MaxStrDigits, _ => '1'), seq(MaxStrDigits + 1, _ => '1');
    DigitsNameMatches(ok, "1", []);
    DigitsNameMatches(long, "1", []);
    assert "W" + ok + "X1" + [] == "W" + ok + "X1";
    assert "W" + long + "X1" + [] == "W" + long + "X1";
    DepthWeightOfLeftmostMatch("W" + ok + "X1", 0, |ok|, 1);
    DepthWeightOfLeftmostMatch("W" + long + "X1", 0, |long|, 1);
  }

  // ---------------------------------------------------- get_section_candidates

  /** The sizes from position from on that start with depth, in table order:
      the startswith mask applied to the size column. */
  function SizesWithPrefix(rows: seq<Row>, depth: string, from: nat): (r: seq<string>)
    requires from <= |rows|
    ensures |r| <= |rows| - from
    ensures forall k :: 0 <= k < |r| ==> depth <= r[k]
    decreases |rows| - from
  {
    if from == |rows| then []
    else (if depth <= rows[from].size then [rows[from].size] else []) + SizesWithPrefix(rows, depth, from + 1)
  }

  /** All section sizes of the table that start with depth, e.g. "W14". */
  function GetSectionCandidates(t: Table, depth: string): (r: seq<string>)
    ensures |r| <= |t.rows|
    ensures forall k :: 0 <= k < |r| ==> depth <= r[k]
  {
    SizesWithPrefix(t.rows, depth, 0)
  }

  /** r lists the sizes of the rows at the increasing positions idx, and idx
      holds exactly the positions from from on whose size starts with depth. */
  ghost predicate OrderedSelection(rows: seq<Row>, depth: string, from: nat, r: seq<string>, idx: seq<nat>) {
    && |idx| == |r|
    && (forall k :: 0 <= k < |idx| ==> from <= idx[k] < |rows| && rows[idx[k]].size == r[k])
    && (forall k, l :: 0 <= k < l < |idx| ==> idx[k] < idx[l])
    && (forall i :: from <= i < |rows| ==> (depth <= rows[i].size <==> i in idx))
  }

  /** A matching row in front extends a selection by one position. */
  lemma SelectionTake(rows: seq<Row>, depth: string, from: nat, rest: seq<string>, idx: seq<nat>)
    requires from < |rows| && depth <= rows[from].size
    requires OrderedSelection(rows, depth, from + 1, rest, idx)
    ensures OrderedSelection(rows, depth, from, [rows[from].size] + rest, [from] + idx)
  {
  }

  /** A row in front that does not match leaves a selection as it is. */
  lemma SelectionSkip(rows: seq<Row>, depth: string, from: nat, rest: seq<string>, idx: seq<nat>)
    requires from < |rows| && !(depth <= rows[from].size)
    requires OrderedSelection(rows, depth, from + 1, rest, idx)
    ensures OrderedSelection(rows, depth, from, rest, idx)
  {
  }

  /** The positions the prefix filter keeps, from position from on. */
  lemma {:induction false} SizesWithPrefixSelects(rows: seq<Row>, depth: string, from: nat) returns (idx: seq<nat>)
    requires from <= |rows|
    ensures OrderedSelection(rows, depth, from, SizesWithPrefix(rows, depth, from), idx)
    decreases |rows| - from
  {
    if from == |rows| {
      idx := [];
    } else {
      var rest := SizesWithPrefix(rows, depth, from + 1);
      var tail := SizesWithPrefixSelects(rows, depth, from + 1);
      if depth <= rows[from].size {
        SelectionTake(rows, depth, from, rest, tail);
        assert SizesWithPrefix(rows, depth, from) == [rows[from].size] + rest;
        idx := [from] + tail;
      } else {
        SelectionSkip(rows, depth, from, rest, tail);
        assert SizesWithPrefix(rows, depth, from) == [] + rest;
        idx := tail;
      }
    }
  }

  /** The candidates are the size column filtered by the prefix, in table
      order: a subsequence of the size column that keeps every matching row. */
  lemma CandidatesInTableOrder(t: Table, depth: string)
    ensures exists idx :: OrderedSelection(t.rows, depth, 0, GetSectionCandidates(t, depth), idx)
  {
    var idx := SizesWithPrefixSelects(t.rows, depth, 0);
    assert OrderedSelection(t.rows, depth, 0, GetSectionCandidates(t, depth), idx);
  }

  /** No omissions and no extras: a name is a candidate exactly when it is
      the size of some row and starts with depth. */
  lemma CandidatesExact(t: Table, depth: string, x: string)
    ensures x in GetSectionCandidates(t, depth) <==>
      depth <= x && exists i :: 0 <= i < |t.rows| && t.rows[i].size == x
  {
    var r := GetSectionCandidates(t, depth);
    var idx := SizesWithPrefixSelects(t.rows, depth, 0);
    if x in r {
      var k :| 0 <= k < |r| && r[k] == x;
      assert t.rows[idx[k]].size == x;
    }
    if depth <= x && exists i :: 0 <= i < |t.rows| && t.rows[i].size == x {
      var i :| 0 <= i < |t.rows| && t.rows[i].size == x;
      assert i in idx;
      var k :| 0 <= k < |idx| && idx[k] == i;
      assert r[k] == x;
    }
  }

  // -------------------------------------------------------- search_member_size

  /** property_name in self.dataframe.columns. */
  predicate HasColumn(t: Table, name: string) {
    name == SizeColumn || name in t.columns
  }

  /** Row i passes the isin(candidates) mask. */
  predicate IsCandidate(rows: seq<Row>, cands: seq<string>, i: nat)
    requires i < |rows|
  {
    rows[i].size in cands
  }

  /** Row i passes both masks: it is a candidate and its value of name is at
      least the threshold (a missing value never is). */
  predicate MeetsThreshold(rows: seq<Row>, name: string, threshold: real, cands: seq<string>, i: nat)
    requires i < |rows|
  {
    IsCandidate(rows, cands, i) && name in rows[i].props && rows[i].props[name] >= threshold
  }

  /** The first candidate row from position from on (|rows| if none): the
      fallback .iloc[0]. */
  function FirstCandidate(rows: seq<Row>, cands: seq<string>, from: nat): (r: nat)
    requires from <= |rows|
    ensures from <= r <= |rows|
    ensures r < |rows| ==> IsCandidate(rows, cands, r)
    ensures forall j :: from <= j < r ==> !IsCandidate(rows, cands, j)
    decreases |rows| - from
  {
    if from == |rows| || IsCandidate(rows, cands, from) then from else FirstCandidate(rows, cands, from + 1)
  }

  /** idxmin of the surplus over the rows from position from on that meet
      the threshold: the least surplus, the earliest row among equal ones. */
  function LeastSurplus(rows: seq<Row>, name: string, threshold: real, cands: seq<string>, from: nat): (r: Option<nat>)
    requires from <= |rows|
    ensures r.None? <==> forall j :: from <= j < |rows| ==> !MeetsThreshold(rows, name, threshold, cands, j)
    ensures r.Some? ==> from <= r.value < |rows| && MeetsThreshold(rows, name, threshold, cands, r.value)
    ensures r.Some? ==> forall j :: from <= j < |rows| && MeetsThreshold(rows, name, threshold, cands, j) ==>
      rows[r.value].props[name] - threshold <= rows[j].props[name] - threshold
    ensures r.Some? ==> forall j :: from <= j < r.value && MeetsThreshold(rows, name, threshold, cands, j) ==>
      rows[r.value].props[name] - threshold < rows[j].props[name] - threshold
    decreases |rows| - from
  {
    if from == |rows| then None
    else
      var rest := LeastSurplus(rows, name, threshold, cands, from + 1);
      if MeetsThreshold(rows, name, threshold, cands, from)
        && (rest.None? || rows[from].props[name] - threshold <= rows[rest.value].props[name] - threshold)
      then Some(from)
      else rest
  }

  /** Some row's size is among the candidates. */
  ghost predicate AnyCandidate(t: Table, cands: seq<string>) {
    exists i :: 0 <= i < |t.rows| && IsCandidate(t.rows, cands, i)
  }

  /** Some candidate row meets the threshold. */
  ghost predicate AnyMeets(t: Table, name: string, threshold: real, cands: seq<string>) {
    exists i :: 0 <= i < |t.rows| && MeetsThreshold(t.rows, name, threshold, cands, i)
  }

  /** Row k is the most economical: it meets the threshold, no row that does
      has a smaller value, and every earlier row that does has a larger one. */
  ghost predicate MostEconomicalAt(t: Table, name: string, threshold: real, cands: seq<string>, k: nat) {
    && k < |t.rows| && MeetsThreshold(t.rows, name, threshold, cands, k)
    && (forall j :: 0 <= j < |t.rows| && MeetsThreshold(t.rows, name, threshold, cands, j) ==>
          t.rows[k].props[name] <= t.rows[j].props[name])
    && (forall j :: 0 <= j < k && MeetsThreshold(t.rows, name, threshold, cands, j) ==>
          t.rows[k].props[name] < t.rows[j].props[name])
  }

  /** Row k is the first candidate row in table order. */
  ghost predicate FirstCandidateAt(t: Table, cands: seq<string>, k: nat) {
    k < |t.rows| && IsCandidate(t.rows, cands, k) && forall j :: 0 <= j < k ==> !IsCandidate(t.rows, cands, j)
  }

  /** The most economical size among cands whose property name is at least
      threshold; the first candidate row in table order when none is. */
  function SearchMemberSize(t: Table, name: string, threshold: real, cands: seq<string>): (r: Result<string, Error>)
    ensures !HasColumn(t, name) ==> r == Err(MissingColumn)
    ensures HasColumn(t, name) && !AnyCandidate(t, cands) ==> r == Err(EmptyCandidates)
    ensures HasColumn(t, name) && AnyCandidate(t, cands) && name == SizeColumn ==> r == Err(NotComparable)
    ensures r.Ok? <==> HasColumn(t, name) && name != SizeColumn && AnyCandidate(t, cands)
    ensures r.Ok? && AnyMeets(t, name, threshold, cands) ==>
      exists k: nat :: MostEconomicalAt(t, name, threshold, cands, k) && r.value == t.rows[k].size
    ensures r.Ok? && !AnyMeets(t, name, threshold, cands) ==>
      exists k: nat :: FirstCandidateAt(t, cands, k) && r.value == t.rows[k].size
  {
    if !HasColumn(t, name) then Err(MissingColumn)
    else
      var first := FirstCandidate(t.rows, cands, 0);
      if first == |t.rows| then Err(EmptyCandidates)
      else if name == SizeColumn then Err(NotComparable)
      else match LeastSurplus(t.rows, name, threshold, cands, 0)
        case None => Ok(t.rows[first].size)
        case Some(k) =>
          assert MostEconomicalAt(t, name, threshold, cands, k);
          Ok(t.rows[k].size)
  }

  /** A successful search names the size of a candidate row of the table. */
  lemma SearchReturnsCandidateRow(t: Table, name: string, threshold: real, cands: seq<string>)
    ensures var r := SearchMemberSize(t, name, threshold, cands);
      r.Ok? ==> r.value in cands && exists k :: 0 <= k < |t.rows| && t.rows[k].size == r.value
  {
  }

  /** The tie-break makes the most economical row unique. */
  lemma MostEconomicalUnique(t: Table, name: string, threshold: real, cands: seq<string>, k1: nat, k2: nat)
    requires MostEconomicalAt(t, name, threshold, cands, k1)
    requires MostEconomicalAt(t, name, threshold, cands, k2)
    ensures k1 == k2
  {
  }

  /** Only the set of names in the candidate list matters: neither its order
      nor repetitions in it change the answer. */
  lemma SearchIgnoresCandidateOrder(t: Table, name: string, threshold: real, c1: seq<string>, c2: seq<string>)
    requires forall x :: x in c1 <==> x in c2
    ensures SearchMemberSize(t, name, threshold, c1) == SearchMemberSize(t, name, threshold, c2)
  {
    var r1, r2 := SearchMemberSize(t, name, threshold, c1), SearchMemberSize(t, name, threshold, c2);
    assert forall i :: 0 <= i < |t.rows| ==> (IsCandidate(t.rows, c1, i) <==> IsCandidate(t.rows, c2, i));
    assert forall i :: 0 <= i < |t.rows| ==>
      (MeetsThreshold(t.rows, name, threshold, c1, i) <==> MeetsThreshold(t.rows, name, threshold, c2, i));
    assert AnyCandidate(t, c1) <==> AnyCandidate(t, c2);
    assert AnyMeets(t, name, threshold, c1) <==> AnyMeets(t, name, threshold, c2);
    if r1.Ok? && AnyMeets(t, name, threshold, c1) {
      var k1: nat :| MostEconomicalAt(t, name, threshold, c1, k1) && r1.value == t.rows[k1].size;
      var k2: nat :| MostEconomicalAt(t, name, threshold, c2, k2) && r2.value == t.rows[k2].size;
      assert MostEconomicalAt(t, name, threshold, c1, k2);
      MostEconomicalUnique(t, name, threshold, c1, k1, k2);
    } else if r1.Ok? {
      var k1: nat :| FirstCandidateAt(t, c1, k1) && r1.value == t.rows[k1].size;
      var k2: nat :| FirstCandidateAt(t, c2, k2) && r2.value == t.rows[k2].size;
      assert FirstCandidateAt(t, c1, k2);
    }
  }

  /** When no candidate row meets the threshold, the answer is the same
      for every property column and every threshold: the first candidate row. */
  lemma FallbackIgnoresPropertyAndThreshold(t: Table, cands: seq<string>,
                                            name1: string, threshold1: real, name2: string, threshold2: real)
    requires HasColumn(t, name1) && name1 != SizeColumn && !AnyMeets(t, name1, threshold1, cands)
    requires HasColumn(t, name2) && name2 != SizeColumn && !AnyMeets(t, name2, threshold2, cands)
    ensures SearchMemberSize(t, name1, threshold1, cands) == SearchMemberSize(t, name2, threshold2, cands)
  {
  }

  /** Raising the threshold past every candidate's value switches to the
      fallback, which is not necessarily the largest candidate: here the
      first row is W14X90 although W14X730 has the larger Zx. */
  lemma FallbackIsNotTheLargest()
    ensures var t := Table({"Zx"}, [Row("W14X90", map["Zx" := 157.0]), Row("W14X730", map["Zx" := 1660.0])]);
      SearchMemberSize(t, "Zx", 2000.0, ["W14X730", "W14X90"]) == Ok("W14X90")
      && SearchMemberSize(t, "Zx", 100.0, ["W14X730", "W14X90"]) == Ok("W14X90")
      && SearchMemberSize(t, "Zx", 1000.0, ["W14X730", "W14X90"]) == Ok("W14X730")
  {
  }

  /** get_section_candidates("W27") keeps W27X94 and drops W14X730. */
  lemma CandidatesExample()
    ensures var t := Table({"Zx"}, [Row("W14X730", map["Zx" := 1660.0]), Row("W27X94", map["Zx" := 278.0])]);
      GetSectionCandidates(t, "W27") == ["W27X94"]
  {
    assert !("W27" <= "W14X730") by { assert "W14X730"[1] != "W27"[1]; }
    assert "W27" <= "W27X94";
  }
}
