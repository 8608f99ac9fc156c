/**
 * The `/proc/cpuinfo` reader of the Controllino hardware detector: the text is
 * cut into blank-line separated blocks; every block that starts with
 * `processor` becomes a key/value map, the first other block that mentions a
 * serial becomes the board block, and the five `cpu ...` fields are
 * aggregated over all processor maps.  The file itself is not read here: the
 * raw text is the input.
 */
module CpuInfoParser {
  import opened Wrappers
  import opened PyStr

  /** The observed CPU and board descriptor.  An aggregated `cpu ...` field is
      `None` when processor blocks exist but none of them carries the key. */
  datatype CpuInfo = CpuInfo(
    numProcessors: int,
    cpuImplementer: Option<string>,
    cpuArchitecture: Option<string>,
    cpuVariant: Option<string>,
    cpuPart: Option<string>,
    cpuRevision: Option<string>,
    hwSerial: string,
    hwHardware: string,
    hwRevision: string,
    hwModel: string)

  /** `CpuInfo()` with every argument left at its default. */
  const DefaultCpuInfo := CpuInfo(0, Some(""), Some(""), Some(""), Some(""), Some(""), "", "", "", "")

  /** The exceptions the reader can raise on well-formed input text. */
  datatype ParseError =
    | BadProcessorLine(line: string)  // a processor line that is not exactly `key: value`
    | NoHardwareBlock                 // no non-processor block mentions a serial
    | Unorderable(key: string)        // some processors carry `key` and some do not

  // ------------------------------------------------------------- blocks

  predicate IsProcessorBlock(block: string) {
    StartsWith(block, "processor")
  }

  predicate IsHardwareBlock(block: string) {
    !IsProcessorBlock(block) && Contains(Upper(block), "SERIAL")
  }

  /** The blocks that start with `processor`, in order. */
  function ProcessorBlocks(blocks: seq<string>): seq<string> {
    if blocks == [] then []
    else
      var last := blocks[|blocks| - 1];
      ProcessorBlocks(blocks[..|blocks| - 1]) + (if IsProcessorBlock(last) then [last] else [])
  }

  /** The indices of the processor blocks. */
  function ProcessorIndices(blocks: seq<string>): set<int> {
    set i | 0 <= i < |blocks| && IsProcessorBlock(blocks[i])
  }

  /** Filtering keeps exactly one entry per processor block. */
  lemma {:induction false} ProcessorBlocksCount(blocks: seq<string>)
    ensures |ProcessorBlocks(blocks)| == |ProcessorIndices(blocks)|
  {
    if blocks != [] {
      var n := |blocks| - 1;
      var init := blocks[..n];
      ProcessorBlocksCount(init);
      assert forall i :: 0 <= i < n ==> init[i] == blocks[i];
      if IsProcessorBlock(blocks[n]) {
        assert ProcessorIndices(blocks) == ProcessorIndices(init) + {n};
      } else {
        assert ProcessorIndices(blocks) == ProcessorIndices(init);
      }
    }
  }

  /** The filtered list holds processor blocks of the text, and every one of
      them. */
  lemma {:induction false} ProcessorBlocksMembers(blocks: seq<string>)
    ensures forall i :: 0 <= i < |ProcessorBlocks(blocks)| ==>
      IsProcessorBlock(ProcessorBlocks(blocks)[i]) && ProcessorBlocks(blocks)[i] in blocks
    ensures forall i :: 0 <= i < |blocks| && IsProcessorBlock(blocks[i]) ==> blocks[i] in ProcessorBlocks(blocks)
  {
    if blocks != [] {
      var n := |blocks| - 1;
      var init := blocks[..n];
      ProcessorBlocksMembers(init);
      var last := blocks[n];
      var tail := if IsProcessorBlock(last) then [last] else [];
      var r, ri := ProcessorBlocks(blocks), ProcessorBlocks(init);
      assert r == ri + tail;
      assert forall i :: 0 <= i < n ==> init[i] == blocks[i];
      assert forall x :: x in ri ==> x in r;
      forall i | 0 <= i < |r| ensures IsProcessorBlock(r[i]) && r[i] in blocks {
        if i < |ri| {
          assert r[i] == ri[i];
          assert IsProcessorBlock(ri[i]) && ri[i] in init;
        } else {
          assert r[i] == last;
        }
      }
    }
  }

  /** The blocks that are not processor blocks and mention a serial, in order. */
  function HardwareBlocks(blocks: seq<string>): (r: seq<string>)
    ensures r == [] <==> forall i :: 0 <= i < |blocks| ==> !IsHardwareBlock(blocks[i])
  {
    if blocks == [] then []
    else
      assert forall i :: 1 <= i < |blocks| ==> blocks[i] == blocks[1..][i - 1];
      (if IsHardwareBlock(blocks[0]) then [blocks[0]] else []) + HardwareBlocks(blocks[1..])
  }

  /** The board block is the first block that qualifies. */
  lemma {:induction false} FirstHardwareBlock(blocks: seq<string>, i: int)
    requires 0 <= i < |blocks| && IsHardwareBlock(blocks[i])
    requires forall j :: 0 <= j < i ==> !IsHardwareBlock(blocks[j])
    ensures HardwareBlocks(blocks) != [] && HardwareBlocks(blocks)[0] == blocks[i]
  {
    if i > 0 {
      FirstHardwareBlock(blocks[1..], i - 1);
    }
  }

  // ------------------------------------------------------- processor lines

  /** One processor line, `k, v = line.split(": ")`: exactly one separator, the
      key stripped and lower-cased, the value only stripped. */
  function ParseProcLine(line: string): Result<(string, string), ParseError> {
    var parts := Split(line, ": ");
    if |parts| != 2 then Failure(BadProcessorLine(line))
    else Success((Lower(Strip(parts[0])), Strip(parts[1])))
  }

  lemma ColonSpaceUnbordered()
    ensures Unbordered(": ")
  {
    assert ": "[..1] == ":" && ": "[1..] == " ";
  }

  /** A line with exactly one `": "` splits into its stripped, lower-cased key
      and its stripped value. */
  lemma ProcLineWellFormed(a: string, b: string)
    requires !Contains(a, ": ") && !Contains(b, ": ")
    ensures ParseProcLine(a + ": " + b) == Success((Lower(Strip(a)), Strip(b)))
  {
    ColonSpaceUnbordered();
    SplitTwo(a, ": ", b);
  }

  /** A line without `": "` is an error. */
  lemma ProcLineWithoutSeparator(line: string)
    requires !Contains(line, ": ")
    ensures ParseProcLine(line) == Failure(BadProcessorLine(line))
  {
  }

  /** A line with two or more `": "` is an error. */
  lemma ProcLineWithTwoSeparators(a: string, b: string, c: string)
    requires !Contains(a, ": ")
    ensures ParseProcLine(a + ": " + b + ": " + c).Failure?
  {
    ColonSpaceUnbordered();
    assert a + ": " + b + ": " + c == a + ": " + (b + ": " + c);
    SplitAfter(a, ": ", b + ": " + c);
    var rest := Split(b + ": " + c, ": ");
    assert Find(b + ": " + c, ": ") >= 0 by {
      assert (b + ": " + c)[|b|..|b| + 2] == ": ";
      assert OccursAt(b + ": " + c, ": ", |b|);
    }
    assert |rest| >= 2;
  }

  /** The values of a run of steps that each may raise: the first error
      raised, or every value. */
  function Collect<T>(steps: seq<Result<T, ParseError>>): (r: Result<seq<T>, ParseError>)
    ensures r.Success? <==> forall i :: 0 <= i < |steps| ==> steps[i].Success?
    ensures r.Success? ==>
      |r.value| == |steps| && forall i :: 0 <= i < |steps| ==> r.value[i] == steps[i].value
  {
    if steps == [] then Success([])
    else
      var n := |steps| - 1;
      var done := Collect(steps[..n]);
      assert forall i :: 0 <= i < n ==> steps[..n][i] == steps[i];
      if done.Failure? then done
      else if steps[n].Failure? then Failure(steps[n].error)
      else Success(done.value + [steps[n].value])
  }

  lemma {:induction false} CollectFailurePersists<T>(steps: seq<Result<T, ParseError>>, n: int)
    requires 0 <= n <= |steps| && Collect(steps[..n]).Failure?
    ensures Collect(steps) == Collect(steps[..n])
  {
    if n < |steps| {
      var init := steps[..|steps| - 1];
      assert init[..n] == steps[..n];
      CollectFailurePersists(init, n);
    } else {
      assert steps[..n] == steps;
    }
  }

  /** One more step that succeeds extends the collected values. */
  lemma CollectSnoc<T>(steps: seq<Result<T, ParseError>>, j: int)
    requires 0 <= j < |steps| && Collect(steps[..j]).Success? && steps[j].Success?
    ensures Collect(steps[..j + 1]) == Success(Collect(steps[..j]).value + [steps[j].value])
  {
    assert steps[..j + 1][..j] == steps[..j];
  }

  /** The first step that raises decides the outcome. */
  lemma CollectFailsAt<T>(steps: seq<Result<T, ParseError>>, j: int)
    requires 0 <= j < |steps| && Collect(steps[..j]).Success? && steps[j].Failure?
    ensures Collect(steps) == Failure(steps[j].error)
  {
    assert steps[..j + 1][..j] == steps[..j];
    CollectFailurePersists(steps, j + 1);
  }

  /** The lines of one processor block as key/value pairs; the first bad line
      is the error. */
  function ParseProcLines(lines: seq<string>): Result<seq<(string, string)>, ParseError> {
    Collect(seq(|lines|, i requires 0 <= i < |lines| => ParseProcLine(lines[i])))
  }

  /** A Python dict filled from the pairs in order: a later key overwrites. */
  function ToMap(pairs: seq<(string, string)>): (m: map<string, string>)
    ensures m.Keys == set i | 0 <= i < |pairs| :: pairs[i].0
    ensures forall k :: k in m ==> exists i :: 0 <= i < |pairs| && pairs[i] == (k, m[k])
  {
    if pairs == [] then map[]
    else
      var init := pairs[..|pairs| - 1];
      var last := pairs[|pairs| - 1];
      var m := ToMap(init);
      assert forall i :: 0 <= i < |init| ==> init[i] == pairs[i];
      assert (set i | 0 <= i < |pairs| :: pairs[i].0) == m.Keys + {last.0} by {
        forall k | k in m.Keys ensures k in (set i | 0 <= i < |pairs| :: pairs[i].0) {
          var i :| 0 <= i < |init| && init[i].0 == k;
          assert pairs[i].0 == k;
        }
      }
      m[last.0 := last.1]
  }

  lemma ToMapSnoc(pairs: seq<(string, string)>, kv: (string, string))
    ensures ToMap(pairs + [kv]) == ToMap(pairs)[kv.0 := kv.1]
  {
    assert (pairs + [kv])[..|pairs|] == pairs;
  }

  /** The value kept for a key is the one of its last pair. */
  lemma {:induction false} ToMapLastWins(pairs: seq<(string, string)>, i: int)
    requires 0 <= i < |pairs|
    requires forall j :: i < j < |pairs| ==> pairs[j].0 != pairs[i].0
    ensures pairs[i].0 in ToMap(pairs) && ToMap(pairs)[pairs[i].0] == pairs[i].1
  {
    var init := pairs[..|pairs| - 1];
    if i < |pairs| - 1 {
      ToMapLastWins(init, i);
    }
  }

  /** One processor block as a dict of its lines. */
  function ParseBlock(block: string): Result<map<string, string>, ParseError> {
    var pairs :- ParseProcLines(SplitLines(block));
    Success(ToMap(pairs))
  }

  /** Every processor block as a dict; the first bad line is the error. */
  function ParseProcessors(blocks: seq<string>): Result<seq<map<string, string>>, ParseError> {
    Collect(seq(|blocks|, i requires 0 <= i < |blocks| => ParseBlock(blocks[i])))
  }

  /** One bad line in any processor block makes the whole block list fail. */
  lemma BadLineFailsProcessors(blocks: seq<string>, i: int, j: int)
    requires 0 <= i < |blocks| && 0 <= j < |SplitLines(blocks[i])|
    requires ParseProcLine(SplitLines(blocks[i])[j]).Failure?
    ensures ParseProcessors(blocks).Failure?
  {
    var lines := SplitLines(blocks[i]);
    assert seq(|lines|, k requires 0 <= k < |lines| => ParseProcLine(lines[k]))[j].Failure?;
    assert ParseBlock(blocks[i]).Failure?;
    assert seq(|blocks|, k requires 0 <= k < |blocks| => ParseBlock(blocks[k]))[i].Failure?;
  }

  // ----------------------------------------------------------- aggregation

  predicate AllHave(procs: seq<map<string, string>>, key: string) {
    forall i :: 0 <= i < |procs| ==> key in procs[i]
  }

  predicate NoneHave(procs: seq<map<string, string>>, key: string) {
    forall i :: 0 <= i < |procs| ==> key !in procs[i]
  }

  /** The value of `key` in every processor map, when all of them carry it. */
  function Present(procs: seq<map<string, string>>, key: string): (vs: seq<string>)
    requires AllHave(procs, key)
    ensures |vs| == |procs| && forall i :: 0 <= i < |procs| ==> vs[i] == procs[i][key]
  {
    seq(|procs|, i requires 0 <= i < |procs| => procs[i][key])
  }

  /** `get_props(k)`: the sorted distinct values of `key` over the processors,
      joined by `|` when there are several; `""` without processors.  Python's
      `None` for a missing key makes the result `None` when no processor has
      the key and makes `sorted` raise when only some have it. */
  function GetProps(procs: seq<map<string, string>>, key: string): Result<Option<string>, ParseError> {
    if |procs| > 0 && NoneHave(procs, key) then Success(None)
    else if !AllHave(procs, key) then Failure(Unorderable(key))
    else
      var prop := SortedSet(Present(procs, key));
      if |prop| > 1 then Success(Some(Join(prop, "|")))
      else if |prop| < 1 then Success(Some(""))
      else Success(Some(prop[0]))
  }

  /** Which of the three outcomes `get_props` has, in terms of which processors
      carry the key; when all do, the value is the `|`-join of the sorted
      distinct values whatever their number. */
  lemma GetPropsOutcome(procs: seq<map<string, string>>, key: string)
    ensures GetProps(procs, key) == Success(None) <==> |procs| > 0 && NoneHave(procs, key)
    ensures GetProps(procs, key).Failure? <==> !AllHave(procs, key) && !NoneHave(procs, key)
    ensures AllHave(procs, key) ==>
      GetProps(procs, key) == Success(Some(Join(SortedSet(Present(procs, key)), "|")))
  {
  }

  /** Without processors every aggregated field is the empty string. */
  lemma GetPropsNoProcessors(key: string)
    ensures GetProps([], key) == Success(Some(""))
  {
  }

  /** When all processors agree on a value, that value is returned unchanged. */
  lemma GetPropsAgree(procs: seq<map<string, string>>, key: string, v: string)
    requires |procs| > 0
    requires forall i :: 0 <= i < |procs| ==> key in procs[i] && procs[i][key] == v
    ensures GetProps(procs, key) == Success(Some(v))
  {
    var vs := Present(procs, key);
    assert vs[0] == v;
    StrictlySortedUnique(SortedSet(vs), [v]);
  }

  /** The result depends only on the set of processor maps: not on their
      order, nor on duplicates. */
  lemma GetPropsSetDetermined(ps: seq<map<string, string>>, qs: seq<map<string, string>>, key: string)
    requires forall p :: p in ps <==> p in qs
    ensures GetProps(ps, key) == GetProps(qs, key)
  {
    assert |ps| > 0 <==> |qs| > 0 by {
      if |ps| > 0 { assert ps[0] in qs; }
      if |qs| > 0 { assert qs[0] in ps; }
    }
    assert AllHave(ps, key) <==> AllHave(qs, key) by {
      if AllHave(ps, key) {
        forall i | 0 <= i < |qs| ensures key in qs[i] {
          assert qs[i] in ps;
        }
      }
      if AllHave(qs, key) {
        forall i | 0 <= i < |ps| ensures key in ps[i] {
          assert ps[i] in qs;
        }
      }
    }
    assert NoneHave(ps, key) <==> NoneHave(qs, key) by {
      if NoneHave(ps, key) {
        forall i | 0 <= i < |qs| ensures key !in qs[i] {
          assert qs[i] in ps;
        }
      }
      if NoneHave(qs, key) {
        forall i | 0 <= i < |ps| ensures key !in ps[i] {
          assert ps[i] in qs;
        }
      }
    }
    if AllHave(ps, key) {
      var a, b := Present(ps, key), Present(qs, key);
      forall y ensures y in a <==> y in b {
        if y in a {
          var i :| 0 <= i < |a| && a[i] == y;
          assert ps[i] in ps;
          var j :| 0 <= j < |qs| && qs[j] == ps[i];
          assert b[j] == y;
        }
        if y in b {
          var i :| 0 <= i < |b| && b[i] == y;
          assert qs[i] in qs;
          var j :| 0 <= j < |ps| && ps[j] == qs[i];
          assert a[j] == y;
        }
      }
      StrictlySortedUnique(SortedSet(a), SortedSet(b));
    }
  }

  /** Splitting the aggregated value on `|` gives back the sorted distinct
      values, when no value itself contains `|`. */
  lemma GetPropsSplitsBack(procs: seq<map<string, string>>, key: string)
    requires |procs| > 0 && AllHave(procs, key)
    requires forall i :: 0 <= i < |procs| ==> !Contains(procs[i][key], "|")
    ensures GetProps(procs, key).Success? && GetProps(procs, key).value.Some?
    ensures Split(GetProps(procs, key).value.value, "|") == SortedSet(Present(procs, key))
  {
    var vs := Present(procs, key);
    var prop := SortedSet(vs);
    assert vs[0] in prop;
    forall k | 0 <= k < |prop| ensures !Contains(prop[k], "|") {
      assert prop[k] in vs;
    }
    SplitJoin(prop, "|");
  }

  // ----------------------------------------------------------- board block

  /** One board line: key and value cut at the first `": "` (the whole line
      for both when there is none), stripped and lower-cased. */
  function HwPair(line: string): (kv: (string, string))
    ensures IsLower(kv.0) && IsLower(kv.1)
  {
    var parts := SplitOnce(line, ": ");
    LowerIsLower(Strip(parts[0]));
    LowerIsLower(Strip(parts[|parts| - 1]));
    (Lower(Strip(parts[0])), Lower(Strip(parts[|parts| - 1])))
  }

  /** A board line with a `": "` gives the stripped, lower-cased text before
      its first one as key and the text after it as value. */
  lemma HwPairSplit(a: string, b: string)
    requires !Contains(a, ": ")
    ensures HwPair(a + ": " + b) == (Lower(Strip(a)), Lower(Strip(b)))
  {
    ColonSpaceUnbordered();
    FindAfter(a, ": ", b);
    var s := a + ": " + b;
    assert s[..|a|] == a && s[|a| + 2..] == b;
  }

  /** A board line without `": "` gives the whole line, stripped and
      lower-cased, as both key and value. */
  lemma HwPairNoSep(line: string)
    requires !Contains(line, ": ")
    ensures HwPair(line) == (Lower(Strip(line)), Lower(Strip(line)))
  {
  }

  function HwPairs(block: string): seq<(string, string)> {
    var lines := SplitLines(block);
    seq(|lines|, i requires 0 <= i < |lines| => HwPair(lines[i]))
  }

  /** The board block as a dict: every key and value is lower-case, and a
      later duplicate key overwrites an earlier one. */
  function HwMap(block: string): (m: map<string, string>)
    ensures forall k :: k in m ==> IsLower(k) && IsLower(m[k])
  {
    var pairs := HwPairs(block);
    assert forall i :: 0 <= i < |pairs| ==> IsLower(pairs[i].0) && IsLower(pairs[i].1);
    ToMap(pairs)
  }

  /** `d.get(key, default)`. */
  function DictGet(m: map<string, string>, key: string, default: string): string {
    if key in m then m[key] else default
  }

  // ------------------------------------------------------------ the reader

  /** The record filled from the processor dicts and the board dict: the
      count, the five aggregated fields (the first that raises is the error)
      and the four board fields, `""` when absent. */
  function Assemble(procs: seq<map<string, string>>, hwinfo: map<string, string>): (r: Result<CpuInfo, ParseError>)
    ensures r.Success? ==> r.value.numProcessors == |procs|
    ensures r.Success? ==>
      && r.value.hwHardware == DictGet(hwinfo, "hardware", "")
      && r.value.hwRevision == DictGet(hwinfo, "revision", "")
      && r.value.hwSerial == DictGet(hwinfo, "serial", "")
      && r.value.hwModel == DictGet(hwinfo, "model", "")
  {
    var implementer :- GetProps(procs, "cpu implementer");
    var architecture :- GetProps(procs, "cpu architecture");
    var variant :- GetProps(procs, "cpu variant");
    var part :- GetProps(procs, "cpu part");
    var revision :- GetProps(procs, "cpu revision");
    Success(CpuInfo(|procs|, implementer, architecture, variant, part, revision,
      DictGet(hwinfo, "serial", ""), DictGet(hwinfo, "hardware", ""),
      DictGet(hwinfo, "revision", ""), DictGet(hwinfo, "model", "")))
  }

  /** The five aggregated keys, in the order `get_cpuinfo` aggregates them. */
  const CpuKeys: seq<string> := ["cpu implementer", "cpu architecture", "cpu variant", "cpu part", "cpu revision"]

  /** Some processors carry `key` and some do not. */
  predicate Mixed(procs: seq<map<string, string>>, key: string) {
    !AllHave(procs, key) && !NoneHave(procs, key)
  }

  /** Filling the record raises exactly when some aggregated key is carried by
      only some processors, and the error names the first such key in
      aggregation order. */
  lemma AssembleRaisesFirstMixed(procs: seq<map<string, string>>, hwinfo: map<string, string>)
    ensures Assemble(procs, hwinfo).Failure? <==> exists i :: 0 <= i < |CpuKeys| && Mixed(procs, CpuKeys[i])
    ensures Assemble(procs, hwinfo).Failure? ==>
      exists i :: 0 <= i < |CpuKeys| && Mixed(procs, CpuKeys[i])
        && (forall j :: 0 <= j < i ==> !Mixed(procs, CpuKeys[j]))
        && Assemble(procs, hwinfo).error == Unorderable(CpuKeys[i])
  {
    forall i | 0 <= i < |CpuKeys| ensures GetProps(procs, CpuKeys[i]).Failure? <==> Mixed(procs, CpuKeys[i]) {
      GetPropsOutcome(procs, CpuKeys[i]);
    }
    var r := Assemble(procs, hwinfo);
    if Mixed(procs, CpuKeys[0]) {
      assert r.error == Unorderable(CpuKeys[0]);
    } else if Mixed(procs, CpuKeys[1]) {
      assert r.error == Unorderable(CpuKeys[1]);
    } else if Mixed(procs, CpuKeys[2]) {
      assert r.error == Unorderable(CpuKeys[2]);
    } else if Mixed(procs, CpuKeys[3]) {
      assert r.error == Unorderable(CpuKeys[3]);
    } else if Mixed(procs, CpuKeys[4]) {
      assert r.error == Unorderable(CpuKeys[4]);
    } else {
      assert r.Success?;
    }
  }

  /** What `get_cpuinfo` returns or raises for the text `raw`. */
  function CpuInfoOf(raw: string): Result<CpuInfo, ParseError> {
    var blocks := Split(raw, "\n\n");
    var procs :- ParseProcessors(ProcessorBlocks(blocks));
    var hw := HardwareBlocks(blocks);
    if hw == [] then Failure(NoHardwareBlock) else Assemble(procs, HwMap(hw[0]))
  }

  /** The loop that builds one processor dict, `pd`, line by line. */
  method ParseBlockLines(block: string) returns (r: Result<map<string, string>, ParseError>)
    ensures r == ParseBlock(block)
  {
    var pd: map<string, string> := map[];
    var p := SplitLines(block);
    ghost var lineSteps := seq(|p|, k requires 0 <= k < |p| => ParseProcLine(p[k]));
    ghost var pairs: seq<(string, string)> := [];
    for j := 0 to |p|
      invariant Collect(lineSteps[..j]) == Success(pairs)
      invariant pd == ToMap(pairs)
    {
      var kv := Split(p[j], ": ");
      assert lineSteps[j] == ParseProcLine(p[j]);
      if |kv| != 2 {
        // `k, v = pv.split(": ")` raises ValueError
        CollectFailsAt(lineSteps, j);
        return Failure(BadProcessorLine(p[j]));
      }
      CollectSnoc(lineSteps, j);
      ToMapSnoc(pairs, (Lower(Strip(kv[0])), Strip(kv[1])));
      pd := pd[Lower(Strip(kv[0])) := Strip(kv[1])];
      pairs := pairs + [(Lower(Strip(kv[0])), Strip(kv[1]))];
    }
    assert lineSteps[..|p|] == lineSteps;
    return Success(pd);
  }

  /** The loop that builds `procs`, one dict per processor block. */
  method ParseProcessorBlocks(listProcs: seq<string>) returns (r: Result<seq<map<string, string>>, ParseError>)
    ensures r == ParseProcessors(listProcs)
  {
    var procs: seq<map<string, string>> := [];
    ghost var blockSteps := seq(|listProcs|, k requires 0 <= k < |listProcs| => ParseBlock(listProcs[k]));
    for i := 0 to |listProcs|
      invariant Collect(blockSteps[..i]) == Success(procs)
    {
      var pd := ParseBlockLines(listProcs[i]);
      assert blockSteps[i] == pd;
      if pd.Failure? {
        CollectFailsAt(blockSteps, i);
        return Failure(pd.error);
      }
      CollectSnoc(blockSteps, i);
      procs := procs + [pd.value];
    }
    assert blockSteps[..|listProcs|] == blockSteps;
    return Success(procs);
  }

  /** `get_cpuinfo()` on the text of `/proc/cpuinfo`. */
  method GetCpuInfo(raw: string) returns (r: Result<CpuInfo, ParseError>)
    ensures r == CpuInfoOf(raw)
  {
    var listCpuinfo := Split(raw, "\n\n");
    var listProcs := ProcessorBlocks(listCpuinfo);
    var procs :- ParseProcessorBlocks(listProcs);
    var hwBlocks := HardwareBlocks(listCpuinfo);
    if hwBlocks == [] {
      return Failure(NoHardwareBlock);
    }
    var cInfo := DefaultCpuInfo;
    cInfo := cInfo.(numProcessors := |procs|);
    var implementer :- GetProps(procs, "cpu implementer");
    cInfo := cInfo.(cpuImplementer := implementer);
    var architecture :- GetProps(procs, "cpu architecture");
    cInfo := cInfo.(cpuArchitecture := architecture);
    var variant :- GetProps(procs, "cpu variant");
    cInfo := cInfo.(cpuVariant := variant);
    var part :- GetProps(procs, "cpu part");
    cInfo := cInfo.(cpuPart := part);
    var revision :- GetProps(procs, "cpu revision");
    cInfo := cInfo.(cpuRevision := revision);
    var hwinfo := HwMap(hwBlocks[0]);
    cInfo := cInfo.(hwHardware := DictGet(hwinfo, "hardware", ""));
    cInfo := cInfo.(hwRevision := DictGet(hwinfo, "revision", ""));
    cInfo := cInfo.(hwSerial := DictGet(hwinfo, "serial", ""));
    cInfo := cInfo.(hwModel := DictGet(hwinfo, "model", ""));
    return Success(cInfo);
  }

  // ------------------------------------------------- properties of the reader

  /** The processor count is the number of blocks that start with `processor`. */
  lemma ProcessorCount(raw: string)
    requires CpuInfoOf(raw).Success?
    ensures CpuInfoOf(raw).value.numProcessors == |ProcessorIndices(Split(raw, "\n\n"))|
  {
    ProcessorBlocksCount(Split(raw, "\n\n"));
  }

  /** Text with a board block and no processor block always parses, to a
      count of zero and five empty cpu fields. */
  lemma NoProcessorsParse(raw: string)
    requires ProcessorIndices(Split(raw, "\n\n")) == {}
    requires HardwareBlocks(Split(raw, "\n\n")) != []
    ensures CpuInfoOf(raw).Success?
    ensures var c := CpuInfoOf(raw).value;
      c.numProcessors == 0 && c.cpuImplementer == c.cpuArchitecture == c.cpuVariant
        == c.cpuPart == c.cpuRevision == Some("")
  {
    var blocks := Split(raw, "\n\n");
    ProcessorBlocksCount(blocks);
    assert ProcessorBlocks(blocks) == [];
    assert ParseProcessors([]) == Success([]);
    var hwinfo := HwMap(HardwareBlocks(blocks)[0]);
    GetPropsNoProcessors("cpu implementer");
    GetPropsNoProcessors("cpu architecture");
    GetPropsNoProcessors("cpu variant");
    GetPropsNoProcessors("cpu part");
    GetPropsNoProcessors("cpu revision");
    assert Assemble([], hwinfo).Success?;
  }

  /** Without a board block the reader raises. */
  lemma NoBoardBlockFails(raw: string)
    requires forall i :: 0 <= i < |Split(raw, "\n\n")| ==> !IsHardwareBlock(Split(raw, "\n\n")[i])
    ensures CpuInfoOf(raw).Failure?
  {
  }

  /** A malformed line in any processor block makes the reader raise. */
  lemma BadProcessorLineFails(raw: string, i: int, j: int)
    requires var procBlocks := ProcessorBlocks(Split(raw, "\n\n"));
      0 <= i < |procBlocks| && 0 <= j < |SplitLines(procBlocks[i])| &&
      ParseProcLine(SplitLines(procBlocks[i])[j]).Failure?
    ensures CpuInfoOf(raw).Failure?
  {
    BadLineFailsProcessors(ProcessorBlocks(Split(raw, "\n\n")), i, j);
  }

  /** The four board fields come from the first qualifying block, are
      lower-case, and default to `""`. */
  lemma BoardFields(raw: string, i: int)
    requires var blocks := Split(raw, "\n\n");
      0 <= i < |blocks| && IsHardwareBlock(blocks[i]) &&
      forall j :: 0 <= j < i ==> !IsHardwareBlock(blocks[j])
    requires CpuInfoOf(raw).Success?
    ensures var c := CpuInfoOf(raw).value;
      var m := HwMap(Split(raw, "\n\n")[i]);
      && c.hwHardware == DictGet(m, "hardware", "")
      && c.hwRevision == DictGet(m, "revision", "")
      && c.hwSerial == DictGet(m, "serial", "")
      && c.hwModel == DictGet(m, "model", "")
      && IsLower(c.hwHardware) && IsLower(c.hwRevision) && IsLower(c.hwSerial) && IsLower(c.hwModel)
  {
    FirstHardwareBlock(Split(raw, "\n\n"), i);
  }
}
