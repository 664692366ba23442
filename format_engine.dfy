/** Interpretation of sextet sequences: the trailing format discriminator,
    the playfield cell count, the rule a cell count implies, and the
    run-length re-encoder of the kana/full-width dialect. */
module FormatEngine {
  import opened Common

  /** The two formats; the discriminator is the sequence's last sextet. */
  datatype Format = Plain | Rle {
    function Code(): int {
      match this
      case Plain => 0
      case Rle => 2
    }
  }

  /** getFormat: the format named by the last sextet; None when the sequence
      is empty or the last sextet names no format. */
  function GetFormat(s: seq<int>): (f: Option<Format>)
    ensures f == Some(Plain) <==> |s| > 0 && Last(s) == 0
    ensures f == Some(Rle) <==> |s| > 0 && Last(s) == 2
    ensures f == None <==> |s| == 0 || (Last(s) != 0 && Last(s) != 2)
  {
    if |s| == 0 then None
    else if Last(s) == Plain.Code() then Some(Plain)
    else if Last(s) == Rle.Code() then Some(Rle)
    else None
  }

  // ---------------------------------------------------------------------
  // Cell count and rule

  /** The sum of s[i] + 1 over the odd positions i of s. */
  function OddFieldSum(s: seq<int>): int {
    if |s| < 2 then 0 else s[1] + 1 + OddFieldSum(s[2..])
  }

  /** getCellCount: the number of playfield cells a sequence describes. */
  function CellCount(s: seq<int>): (r: Result<int, Error>)
    ensures r.Failure? <==> GetFormat(s).None?
    ensures r.Failure? ==> r.error == InvalidFormat
    ensures r.Success? ==> r.value % 2 == 0
  {
    match GetFormat(s)
    case None => Failure(InvalidFormat)
    case Some(Plain) => Success((|s| - 1) * 2)
    case Some(Rle) => Success(OddFieldSum(s) * 2)
  }

  /** getCellCount as the program computes it, with the loop over the odd
      positions for an RLE sequence. */
  method GetCellCount(s: seq<int>) returns (r: Result<int, Error>)
    ensures r == CellCount(s)
  {
    var format := GetFormat(s);
    if format == Some(Plain) {
      return Success((|s| - 1) * 2);
    } else if format == Some(Rle) {
      var size := 0;
      var i := 1;
      while i < |s|
        invariant 1 <= i <= |s| + 1 && i % 2 == 1
        invariant size + OddFieldSum(s[i - 1..]) == OddFieldSum(s)
      {
        assert s[i - 1..][2..] == s[i + 1..];
        size := size + s[i] + 1;
        i := i + 2;
      }
      return Success(size * 2);
    } else {
      return Failure(InvalidFormat);
    }
  }

  /** The four rules, each with its fixed field size. */
  datatype Rule = Normal | Sun | Mega | Tiny

  function RuleCellCount(rule: Rule): int {
    match rule
    case Normal => 78
    case Sun => 84
    case Mega => 22
    case Tiny => 190
  }

  /** getRuleFromCellCount: the rule whose field size is the sequence's cell
      count; an invalid format or an unknown size is an error. */
  function GetRuleFromCellCount(s: seq<int>): (r: Result<Rule, Error>)
    ensures r.Success? <==> CellCount(s).Success? && CellCount(s).value in {22, 78, 84, 190}
    ensures r.Success? ==> RuleCellCount(r.value) == CellCount(s).value
    ensures forall rule: Rule :: CellCount(s) == Success(RuleCellCount(rule)) ==> r == Success(rule)
    ensures CellCount(s).Failure? ==> r == Failure(InvalidFormat)
    ensures CellCount(s).Success? && r.Failure? ==> r.error == UnrecognizedRule
  {
    match CellCount(s)
    case Failure(e) => Failure(e)
    case Success(n) =>
      if n == 22 then Success(Mega)
      else if n == 78 then Success(Normal)
      else if n == 84 then Success(Sun)
      else if n == 190 then Success(Tiny)
      else Failure(UnrecognizedRule)
  }

  // ---------------------------------------------------------------------
  // Runs

  /** `length` consecutive double-cell units holding `cell`. */
  datatype Run = Run(cell: int, length: nat)

  /** A run covers at most 64 units: its stored field length - 1 is a sextet. */
  const MaxRunLength: nat := 64

  predicate ValidRuns(runs: seq<Run>) {
    forall i | 0 <= i < |runs| :: IsSextet(runs[i].cell) && 1 <= runs[i].length <= MaxRunLength
  }

  function Repeat(x: int, n: nat): (r: seq<int>)
    ensures |r| == n
    ensures forall i | 0 <= i < n :: r[i] == x
  {
    seq(n, _ => x)
  }

  /** The cells a list of runs stands for. */
  function Expand(runs: seq<Run>): seq<int> {
    if runs == [] then [] else Repeat(runs[0].cell, runs[0].length) + Expand(runs[1..])
  }

  lemma {:induction false} ExpandAppend(a: seq<Run>, b: seq<Run>)
    ensures Expand(a + b) == Expand(a) + Expand(b)
  {
    if a == [] {
      assert a + b == b;
    } else {
      assert (a + b)[1..] == a[1..] + b;
      ExpandAppend(a[1..], b);
    }
  }

  lemma {:induction false} ExpandSextets(runs: seq<Run>)
    requires ValidRuns(runs)
    ensures AllSextets(Expand(runs))
    ensures runs != [] ==> |Expand(runs)| >= 1
  {
    if runs != [] {
      ExpandSextets(runs[1..]);
    }
  }

  /** The runs an RLE sequence lists: (cell, length - 1) pairs read from the
      front while at least three sextets remain. For an even-length sequence
      the value just before the discriminator is therefore never read. */
  function RleRuns(s: seq<int>): (runs: seq<Run>)
    requires AllSextets(s)
    ensures ValidRuns(runs)
  {
    if |s| < 3 then [] else [Run(s[0], s[1] + 1)] + RleRuns(s[2..])
  }

  lemma RleRunsStep(s: seq<int>, i: nat)
    requires AllSextets(s) && i + 2 < |s|
    ensures Expand(RleRuns(s[i..])) == Repeat(s[i], s[i + 1] + 1) + Expand(RleRuns(s[i + 2..]))
  {
    assert s[i..][2..] == s[i + 2..];
  }

  /** The data part of an RLE sequence: each run as (cell, length - 1). */
  function RunFields(runs: seq<Run>): (r: seq<int>)
    ensures |r| == 2 * |runs|
  {
    seq(2 * |runs|, i requires 0 <= i < 2 * |runs| =>
      if i % 2 == 0 then runs[i / 2].cell else runs[i / 2].length - 1)
  }

  lemma RunFieldsAppend(a: seq<Run>, x: Run)
    ensures RunFields(a + [x]) == RunFields(a) + [x.cell, x.length - 1]
  {
    var l, r := RunFields(a + [x]), RunFields(a) + [x.cell, x.length - 1];
    forall i | 0 <= i < |l|
      ensures l[i] == r[i]
    {
      if i < 2 * |a| {
        assert (a + [x])[i / 2] == a[i / 2];
      }
    }
  }

  /** An RLE sequence: the run fields followed by the RLE discriminator. */
  function RleSequence(runs: seq<Run>): seq<int> {
    RunFields(runs) + [Rle.Code()]
  }

  /** Reading the runs back from an RLE sequence gives the runs written. */
  lemma {:induction false} RleRunsOfRleSequence(runs: seq<Run>)
    requires ValidRuns(runs)
    ensures AllSextets(RleSequence(runs))
    ensures RleRuns(RleSequence(runs)) == runs
  {
    RleSequenceSextets(runs);
    if runs != [] {
      RleSequenceFront(runs);
      RleRunsOfRleSequence(runs[1..]);
      assert runs == [runs[0]] + runs[1..];
    }
  }

  // Every field of an RLE sequence written from valid runs is a sextet.
  lemma RleSequenceSextets(runs: seq<Run>)
    requires ValidRuns(runs)
    ensures AllSextets(RleSequence(runs))
  {
    var s := RleSequence(runs);
    forall i | 0 <= i < |s| - 1
      ensures IsSextet(s[i])
    {
      assert s[i] == RunFields(runs)[i];
    }
  }

  // The first run's two fields lead an RLE sequence; the rest is the RLE
  // sequence of the other runs.
  lemma RleSequenceFront(runs: seq<Run>)
    requires runs != []
    ensures var s := RleSequence(runs);
      |s| >= 3 && s[0] == runs[0].cell && s[1] == runs[0].length - 1 && s[2..] == RleSequence(runs[1..])
  {
    var s, t := RleSequence(runs), RleSequence(runs[1..]);
    forall i | 0 <= i < |t|
      ensures s[i + 2] == t[i]
    {
      if i < |t| - 1 {
        assert (i + 2) / 2 == i / 2 + 1 && (i + 2) % 2 == i % 2;
      }
    }
  }

  /** One step of the greedy encoding: a cell extends the last run when it
      holds the same value and covers fewer than 64 units, and opens a new
      run otherwise. */
  function PushCell(runs: seq<Run>, x: int): (r: seq<Run>)
    ensures |runs| <= |r| <= |runs| + 1
    ensures r != [] && Last(r).cell == x
  {
    if runs != [] && Last(runs).cell == x && Last(runs).length < MaxRunLength
    then runs[|runs| - 1 := Run(x, Last(runs).length + 1)]
    else seq(|runs| + 1, i requires 0 <= i <= |runs| => if i < |runs| then runs[i] else Run(x, 1))
  }

  /** The greedy run-length encoding of `cells`, read left to right. */
  function GreedyRuns(cells: seq<int>): (runs: seq<Run>)
    ensures |runs| <= |cells|
    ensures cells == [] <==> runs == []
    decreases |cells|
  {
    if cells == [] then [] else PushCell(GreedyRuns(cells[..|cells| - 1]), Last(cells))
  }

  lemma GreedyRunsStep(cells: seq<int>, k: nat)
    requires k < |cells|
    ensures GreedyRuns(cells[..k + 1]) == PushCell(GreedyRuns(cells[..k]), cells[k])
  {
    assert cells[..k + 1][..k] == cells[..k];
  }

  /** The greedy runs of the first k cells, read by position rather than by
      slice: the view the re-encoding loop keeps of what it has read. */
  ghost function RunsRead(cells: seq<int>, k: nat): seq<Run>
    requires k <= |cells|
  {
    if k == 0 then [] else PushCell(RunsRead(cells, k - 1), cells[k - 1])
  }

  lemma {:induction false} RunsReadGreedy(cells: seq<int>, k: nat)
    requires k <= |cells|
    ensures RunsRead(cells, k) == GreedyRuns(cells[..k])
  {
    if k > 0 {
      RunsReadGreedy(cells, k - 1);
      GreedyRunsStep(cells, k - 1);
    }
  }

  /** Greedy runs of sextets are valid: sextet cells, 1 to 64 units each. */
  lemma {:induction false} GreedyRunsValid(cells: seq<int>)
    requires AllSextets(cells)
    ensures ValidRuns(GreedyRuns(cells))
    decreases |cells|
  {
    if cells != [] {
      GreedyRunsValid(cells[..|cells| - 1]);
    }
  }

  /** Greedy runs are maximal: a run followed by a run of the same cell is
      full. */
  predicate Maximal(runs: seq<Run>) {
    forall i | 0 <= i < |runs| - 1 :: runs[i].cell == runs[i + 1].cell ==> runs[i].length == MaxRunLength
  }

  lemma PushCellMaximal(runs: seq<Run>, x: int)
    requires ValidRuns(runs) && Maximal(runs)
    ensures Maximal(PushCell(runs, x))
  {
    var r := PushCell(runs, x);
    if runs != [] && Last(runs).cell == x && Last(runs).length < MaxRunLength {
      forall i | 0 <= i < |r| - 1 && r[i].cell == r[i + 1].cell
        ensures r[i].length == MaxRunLength
      {
        assert r[i] == runs[i];
        if i == |r| - 2 {
          assert runs[i + 1].cell == x;
        } else {
          assert r[i + 1] == runs[i + 1];
        }
      }
    } else {
      forall i | 0 <= i < |r| - 1 && r[i].cell == r[i + 1].cell
        ensures r[i].length == MaxRunLength
      {
        assert r[i] == runs[i];
        if i < |r| - 2 {
          assert r[i + 1] == runs[i + 1];
        }
      }
    }
  }

  lemma {:induction false} GreedyRunsMaximal(cells: seq<int>)
    requires AllSextets(cells)
    ensures Maximal(GreedyRuns(cells))
    decreases |cells|
  {
    if cells != [] {
      GreedyRunsMaximal(cells[..|cells| - 1]);
      GreedyRunsValid(cells[..|cells| - 1]);
      PushCellMaximal(GreedyRuns(cells[..|cells| - 1]), Last(cells));
    }
  }

  lemma ExpandSnoc(runs: seq<Run>, x: Run)
    ensures Expand(runs + [x]) == Expand(runs) + Repeat(x.cell, x.length)
  {
    ExpandAppend(runs, [x]);
    assert Expand([x]) == Repeat(x.cell, x.length) + Expand([]);
  }

  lemma RepeatSnoc(x: int, n: nat)
    ensures Repeat(x, n + 1) == Repeat(x, n) + [x]
  {
  }

  /** A greedy step adds exactly the pushed cell to the expansion. */
  lemma ExpandPushCell(runs: seq<Run>, x: int)
    ensures Expand(PushCell(runs, x)) == Expand(runs) + [x]
  {
    if runs != [] && Last(runs).cell == x && Last(runs).length < MaxRunLength {
      var front, n := runs[..|runs| - 1], Last(runs).length;
      assert runs == front + [Run(x, n)];
      assert PushCell(runs, x) == front + [Run(x, n + 1)];
      ExpandSnoc(front, Run(x, n + 1));
      RepeatSnoc(x, n);
      ExpandSnoc(front, Run(x, n));
    } else {
      assert PushCell(runs, x) == runs + [Run(x, 1)];
      ExpandSnoc(runs, Run(x, 1));
      assert Repeat(x, 1) == [x];
    }
  }

  /** Expanding the greedy runs gives the cells back. */
  lemma {:induction false} ExpandGreedyRuns(cells: seq<int>)
    ensures Expand(GreedyRuns(cells)) == cells
    decreases |cells|
  {
    if cells != [] {
      var init := cells[..|cells| - 1];
      assert cells == init + [Last(cells)];
      ExpandGreedyRuns(init);
      ExpandPushCell(GreedyRuns(init), Last(cells));
    }
  }

  /** A prefix never has more greedy runs than the whole. */
  lemma {:induction false} GreedyRunsPrefix(cells: seq<int>, j: nat)
    requires j <= |cells|
    ensures |GreedyRuns(cells[..j])| <= |GreedyRuns(cells)|
    decreases |cells|
  {
    if j < |cells| {
      var init := cells[..|cells| - 1];
      assert init[..j] == cells[..j];
      GreedyRunsPrefix(init, j);
    } else {
      assert cells[..j] == cells;
    }
  }

  // ---------------------------------------------------------------------
  // The re-encoder

  /** A PLAIN sequence needs at least one data sextet, an RLE sequence at
      least one (cell, length - 1) pair; without field data the program's
      re-encoder produces [-1, NaN, 2]. */
  predicate HasFieldData(s: seq<int>) {
    match GetFormat(s)
    case Some(Plain) => |s| >= 2
    case Some(Rle) => |s| >= 3
    case None => true
  }

  /** The plain working sequence: a PLAIN sequence as it is, an RLE sequence
      expanded and given the PLAIN discriminator. */
  function PlainWorking(s: seq<int>): (p: seq<int>)
    requires AllSextets(s) && GetFormat(s).Some?
    ensures AllSextets(p) && GetFormat(p) == Some(Plain)
    ensures HasFieldData(s) ==> |p| >= 2
  {
    if GetFormat(s) == Some(Plain) then s
    else
      ExpandSextets(RleRuns(s));
      Expand(RleRuns(s)) + [Plain.Code()]
  }

  /** Greedy RLE of a plain working sequence's data, or the plain sequence
      itself when there are at least two runs and the RLE form
      (2 * runs + 1 sextets) would be longer than it. */
  function Compress(plain: seq<int>): seq<int>
    requires |plain| >= 1
  {
    var runs := GreedyRuns(plain[..|plain| - 1]);
    if |runs| >= 2 && 2 * |runs| + 1 > |plain| then plain else RleSequence(runs)
  }

  /** Compressing a plain sequence loses nothing: the result is a sequence of
      sextets with a known format whose plain working sequence is the input. */
  lemma CompressLossless(plain: seq<int>)
    requires AllSextets(plain) && |plain| >= 2 && Last(plain) == Plain.Code()
    ensures AllSextets(Compress(plain)) && HasFieldData(Compress(plain))
    ensures GetFormat(Compress(plain)).Some? && PlainWorking(Compress(plain)) == plain
    ensures GetFormat(Compress(plain)) == Some(Plain) || |Compress(plain)| % 2 == 1
  {
    var runs := GreedyRuns(plain[..|plain| - 1]);
    if |runs| >= 2 && 2 * |runs| + 1 > |plain| {
      assert Compress(plain) == plain;
    } else {
      RleFormLossless(plain);
    }
  }

  lemma RleFormLossless(plain: seq<int>)
    requires AllSextets(plain) && |plain| >= 2 && Last(plain) == Plain.Code()
    ensures var r := RleSequence(GreedyRuns(plain[..|plain| - 1]));
      AllSextets(r) && |r| >= 3 && |r| % 2 == 1 && GetFormat(r) == Some(Rle)
      && PlainWorking(r) == plain
  {
    var data := plain[..|plain| - 1];
    var runs := GreedyRuns(data);
    assert plain == data + [Plain.Code()];
    var r := RleSequence(runs);
    assert |r| == 2 * |runs| + 1;
    GreedyRunsValid(data);
    RleRunsOfRleSequence(runs);
    ExpandGreedyRuns(data);
    assert GetFormat(r) == Some(Rle);
  }

  /** normalizeSextetSequence of the kana/full-width dialect: a sequence of
      unknown format (the empty one included) passes through unchanged;
      otherwise its plain working sequence is re-encoded, and the result
      expands back to that same plain working sequence. */
  function Reencoded(s: seq<int>): (r: seq<int>)
    requires AllSextets(s) && HasFieldData(s)
    ensures GetFormat(s).None? ==> r == s
    ensures AllSextets(r) && HasFieldData(r)
    ensures GetFormat(s).Some? ==> GetFormat(r).Some? && PlainWorking(r) == PlainWorking(s)
    ensures GetFormat(s).Some? ==> GetFormat(r) == Some(Plain) || |r| % 2 == 1
  {
    if GetFormat(s).None? then s
    else
      CompressLossless(PlainWorking(s));
      Compress(PlainWorking(s))
  }

  /** normalizeSextetSequence of the kana/full-width dialect as the program
      runs it: a sequence of unknown format is returned as it is; otherwise
      RLE is expanded into the plain working sequence, which is then
      re-encoded greedily. */
  method NormalizeSextetSequence(s: seq<int>) returns (r: seq<int>)
    requires AllSextets(s) && HasFieldData(s)
    ensures r == Reencoded(s)
  {
    var plain: seq<int>;
    var format := GetFormat(s);
    if format == Some(Plain) {
      plain := s;
    } else if format == Some(Rle) {
      plain := ExpandRle(s);
      plain := plain + [Plain.Code()];
    } else {
      return s;
    }
    assert plain == PlainWorking(s);
    r := RunLengthEncode(plain);
  }

  /** The RLE branch of normalizeSextetSequence: every (cell, length - 1)
      pair is written out as `length` copies of `cell`. */
  method ExpandRle(s: seq<int>) returns (plain: seq<int>)
    requires AllSextets(s)
    ensures plain == Expand(RleRuns(s))
  {
    plain := [];
    var i := 0;
    assert s[0..] == s;
    while i < |s| - 2
      invariant Expanded(s, i, plain)
    {
      var cell := s[i];
      i := i + 1;
      var runLength := s[i] + 1;
      ghost var n, before := runLength, plain;
      while runLength > 0
        invariant 0 <= runLength <= n
        invariant plain == before + Repeat(cell, n - runLength)
      {
        RepeatSnoc(cell, n - runLength);
        plain := plain + [cell];
        runLength := runLength - 1;
      }
      i := i + 1;
      ExpandedStep(s, i - 2, before, plain);
    }
    ExpandedDone(s, i, plain);
  }

  // The state of the RLE expansion loop: `plain` holds the cells of the
  // pairs before position i.
  ghost predicate Expanded(s: seq<int>, i: nat, plain: seq<int>) {
    AllSextets(s) && i <= |s| && plain + Expand(RleRuns(s[i..])) == Expand(RleRuns(s))
  }

  lemma ExpandedStep(s: seq<int>, i: nat, before: seq<int>, plain: seq<int>)
    requires Expanded(s, i, before) && i + 2 < |s|
    requires plain == before + Repeat(s[i], s[i + 1] + 1)
    ensures Expanded(s, i + 2, plain)
  {
    RleRunsStep(s, i);
  }

  lemma ExpandedDone(s: seq<int>, i: nat, plain: seq<int>)
    requires Expanded(s, i, plain) && i >= |s| - 2
    ensures plain == Expand(RleRuns(s))
  {
  }

  /** The second half of normalizeSextetSequence: greedy run-length encoding
      of the plain working sequence's data with runs of at most 64 units,
      returning the plain sequence as soon as a length check before writing a
      run finds the RLE form would exceed it. */
  method RunLengthEncode(plain: seq<int>) returns (r: seq<int>)
    requires AllSextets(plain) && |plain| >= 2
    ensures r == Compress(plain)
  {
    var rle: seq<int> := [];
    var previousSextet := -1;
    var count: nat := 0;
    var k := 0;
    while k < |plain| - 1
      invariant k <= |plain| - 1
      invariant Scanned(plain, k, RunsRead(plain, k), rle, previousSextet, count)
    {
      var sextet := plain[k];
      if sextet == previousSextet && count < MaxRunLength {
        ScanExtend(plain, k, RunsRead(plain, k), rle, previousSextet, count);
        count := count + 1;
        k := k + 1;
        continue;
      }
      if previousSextet != -1 {
        if |rle| + 5 > |plain| {
          ScanAbort(plain, k, RunsRead(plain, k), rle, previousSextet, count);
          return plain;
        }
        ScanOpen(plain, k, RunsRead(plain, k), rle, previousSextet, count);
        rle := rle + [previousSextet, count - 1];
      } else {
        ScanFirst(plain, k, RunsRead(plain, k), rle, previousSextet, count);
      }
      previousSextet := sextet;
      count := 1;
      k := k + 1;
    }
    ScanFinish(plain, k, RunsRead(plain, k), rle, previousSextet, count);
    rle := rle + [previousSextet, count - 1];
    rle := rle + [Rle.Code()];
    return rle;
  }

  // The state of the re-encoding loop: of the runs read so far, all but the
  // last are written to `rle`, and the last is held in (prev, count).
  ghost predicate Holds(runs: seq<Run>, rle: seq<int>, prev: int, count: nat) {
    runs != [] && Last(runs) == Run(prev, count) && RunFields(runs) == rle + [prev, count - 1]
  }

  // The state of the re-encoding loop after reading the first k data sextets:
  // `runs` are their greedy runs, held as Holds says once one has been read,
  // and the length check has not fired.
  ghost predicate Scanned(plain: seq<int>, k: nat, runs: seq<Run>, rle: seq<int>, prev: int, count: nat) {
    k < |plain| && runs == RunsRead(plain, k)
    && (|runs| <= 1 || 2 * |runs| + 1 <= |plain|)
    && if k == 0 then prev == -1 && rle == [] else prev == plain[k - 1] && Holds(runs, rle, prev, count)
  }

  lemma ScanExtend(plain: seq<int>, k: nat, runs: seq<Run>, rle: seq<int>, prev: int, count: nat)
    requires AllSextets(plain) && Scanned(plain, k, runs, rle, prev, count) && k < |plain| - 1
    requires plain[k] == prev && count < MaxRunLength
    ensures Scanned(plain, k + 1, RunsRead(plain, k + 1), rle, prev, count + 1)
  {
    assert k > 0;
    var init := runs[..|runs| - 1];
    var next := init + [Run(prev, count + 1)];
    assert next == PushCell(runs, prev);
    assert runs == init + [Last(runs)];
    RunFieldsAppend(init, Last(runs));
    assert RunFields(init) == (rle + [prev, count - 1])[..|rle|] == rle;
    RunFieldsAppend(init, Run(prev, count + 1));
  }

  lemma ScanFirst(plain: seq<int>, k: nat, runs: seq<Run>, rle: seq<int>, prev: int, count: nat)
    requires AllSextets(plain) && Scanned(plain, k, runs, rle, prev, count) && k < |plain| - 1
    requires prev == -1
    ensures Scanned(plain, k + 1, RunsRead(plain, k + 1), rle, plain[k], 1)
  {
    assert k == 0 && runs == [];
  }

  lemma ScanOpen(plain: seq<int>, k: nat, runs: seq<Run>, rle: seq<int>, prev: int, count: nat)
    requires AllSextets(plain) && Scanned(plain, k, runs, rle, prev, count) && k < |plain| - 1
    requires prev != -1 && !(plain[k] == prev && count < MaxRunLength) && |rle| + 5 <= |plain|
    ensures Scanned(plain, k + 1, RunsRead(plain, k + 1), rle + [prev, count - 1], plain[k], 1)
  {
    ScanOpenRuns(plain, k, runs, rle, prev, count);
    RunFieldsAppend(runs, Run(plain[k], 1));
  }

  // A cell that does not extend the held run opens a new one.
  lemma ScanOpenRuns(plain: seq<int>, k: nat, runs: seq<Run>, rle: seq<int>, prev: int, count: nat)
    requires AllSextets(plain) && Scanned(plain, k, runs, rle, prev, count) && k < |plain| - 1
    requires prev != -1 && !(plain[k] == prev && count < MaxRunLength)
    ensures runs != [] && |rle| == 2 * |runs| - 2
    ensures PushCell(runs, plain[k]) == RunsRead(plain, k + 1) == runs + [Run(plain[k], 1)]
  {
  }

  lemma ScanAbort(plain: seq<int>, k: nat, runs: seq<Run>, rle: seq<int>, prev: int, count: nat)
    requires AllSextets(plain) && Scanned(plain, k, runs, rle, prev, count) && k < |plain| - 1
    requires prev != -1 && !(plain[k] == prev && count < MaxRunLength) && |rle| + 5 > |plain|
    ensures Compress(plain) == plain
  {
    ScanOpenRuns(plain, k, runs, rle, prev, count);
    RunsReadGreedy(plain, k + 1);
    AbortWhenLonger(plain, k + 1);
  }

  lemma ScanFinish(plain: seq<int>, k: nat, runs: seq<Run>, rle: seq<int>, prev: int, count: nat)
    requires |plain| >= 2 && k == |plain| - 1 && Scanned(plain, k, runs, rle, prev, count)
    ensures Compress(plain) == rle + [prev, count - 1] + [Rle.Code()]
  {
    RunsReadGreedy(plain, k);
  }

  // Once the runs of a prefix of the data would make the RLE form longer
  // than the plain sequence, so do the runs of all the data.
  lemma AbortWhenLonger(plain: seq<int>, j: nat)
    requires 1 <= j < |plain|
    requires |GreedyRuns(plain[..j])| >= 2 && 2 * |GreedyRuns(plain[..j])| + 1 > |plain|
    ensures Compress(plain) == plain
  {
    var data := plain[..|plain| - 1];
    assert data[..j] == plain[..j];
    GreedyRunsPrefix(data, j);
  }

  // ---------------------------------------------------------------------
  // What the re-encoder promises

  /** Re-encoding an already re-encoded sequence changes nothing. */
  lemma ReencodedIdempotent(s: seq<int>)
    requires AllSextets(s) && HasFieldData(s)
    ensures Reencoded(Reencoded(s)) == Reencoded(s)
  {
  }

  /** The re-encoder picks the shorter of the plain working sequence and its
      greedy RLE form. A tie goes to RLE, and so does a field of a single data
      sextet, whose RLE form is one sextet longer than the plain one. */
  lemma {:induction false} ReencodedShorterForm(s: seq<int>)
    requires AllSextets(s) && HasFieldData(s) && GetFormat(s).Some?
    ensures var plain := PlainWorking(s);
      var rle := RleSequence(GreedyRuns(plain[..|plain| - 1]));
      Reencoded(s) == (if |rle| > |plain| && |plain| > 2 then plain else rle)
  {
    var plain := PlainWorking(s);
    var data := plain[..|plain| - 1];
    var runs := GreedyRuns(data);
    if |runs| == 1 {
      ExpandGreedyRuns(data);
      assert Expand(runs) == Repeat(runs[0].cell, runs[0].length) + Expand([]);
    }
  }

  /** The re-encoded sequence is never longer than the plain working sequence,
      except for a field of a single data sextet. */
  lemma ReencodedLength(s: seq<int>)
    requires AllSextets(s) && HasFieldData(s) && GetFormat(s).Some?
    ensures |Reencoded(s)| <= |PlainWorking(s)| || (|PlainWorking(s)| == 2 && |Reencoded(s)| == 3)
  {
    ReencodedShorterForm(s);
  }

  /** An RLE result is made of maximal runs: two neighbouring runs hold the
      same cell only when the first is full. */
  lemma ReencodedRunsMaximal(s: seq<int>)
    requires AllSextets(s) && HasFieldData(s)
    requires GetFormat(s).Some? && GetFormat(Reencoded(s)) == Some(Rle)
    ensures Maximal(RleRuns(Reencoded(s)))
  {
    var plain := PlainWorking(s);
    var runs := GreedyRuns(plain[..|plain| - 1]);
    GreedyRunsMaximal(plain[..|plain| - 1]);
    GreedyRunsValid(plain[..|plain| - 1]);
    if Reencoded(s) != plain {
      RleRunsOfRleSequence(runs);
    }
  }

  /** For an odd-length sequence the odd fields are exactly the run lengths
      that RleRuns reads. */
  lemma {:induction false} OddFieldSumRuns(s: seq<int>)
    requires AllSextets(s) && |s| % 2 == 1
    ensures OddFieldSum(s) == |Expand(RleRuns(s))|
  {
    if |s| >= 3 {
      OddFieldSumRuns(s[2..]);
    }
  }

  /** The cell count of a PLAIN or odd-length RLE sequence is that of its
      plain working sequence. */
  lemma CellCountOfPlainWorking(s: seq<int>)
    requires AllSextets(s) && GetFormat(s).Some?
    requires GetFormat(s) == Some(Rle) ==> |s| % 2 == 1
    ensures CellCount(s) == Success(2 * (|PlainWorking(s)| - 1))
  {
    if GetFormat(s) == Some(Rle) {
      OddFieldSumRuns(s);
      assert |PlainWorking(s)| == |Expand(RleRuns(s))| + 1;
    }
  }

  /** Re-encoding keeps the cell count, and with it the rule, of every PLAIN
      or odd-length RLE sequence. */
  lemma ReencodedKeepsCellCount(s: seq<int>)
    requires AllSextets(s) && HasFieldData(s) && GetFormat(s).Some?
    requires GetFormat(s) == Some(Rle) ==> |s| % 2 == 1
    ensures CellCount(Reencoded(s)) == CellCount(s)
    ensures GetRuleFromCellCount(Reencoded(s)) == GetRuleFromCellCount(s)
  {
    var r := Reencoded(s);
    CellCountOfPlainWorking(s);
    CellCountOfPlainWorking(r);
    RuleFollowsCellCount(r, s);
  }

  // The rule is read from the cell count alone.
  lemma RuleFollowsCellCount(a: seq<int>, b: seq<int>)
    requires CellCount(a) == CellCount(b)
    ensures GetRuleFromCellCount(a) == GetRuleFromCellCount(b)
  {
  }

  /** An even-length RLE sequence is read differently by the two operations:
      getCellCount adds the discriminator itself, at the last odd position,
      as 2 + 1 = 3 units, while the expansion drops the value before it. */
  lemma EvenRleCellCount()
    ensures var s := [5, 9, 7, 2];
      CellCount(s) == Success(26) && CellCount(Reencoded(s)) == Success(20)
  {
    EvenRleCountedAsRead();
    EvenRleCountedAfterReencoding();
  }

  lemma EvenRleCountedAsRead()
    ensures OddFieldSum([5, 9, 7, 2]) == (9 + 1) + (2 + 1)
    ensures CellCount([5, 9, 7, 2]) == Success(26)
  {
    var s := [5, 9, 7, 2];
    assert s[3..] == [2];
  }

  lemma EvenRleCountedAfterReencoding()
    ensures CellCount(Reencoded([5, 9, 7, 2])) == Success(20)
  {
    var s := [5, 9, 7, 2];
    assert s[2..] == [7, 2];
    assert RleRuns(s) == [Run(5, 10)];
    assert Expand(RleRuns(s)) == Repeat(5, 10) + Expand([]);
    CellCountOfPlainWorking(Reencoded(s));
  }
}
