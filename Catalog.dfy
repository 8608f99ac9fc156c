/**
 * The catalog of known boards and the matcher of the Controllino hardware
 * detector.  An observed `CpuInfo` is compared field by field, on nine fields
 * (everything but the serial), with each catalog entry in order; the first
 * entry that matches gives the board's name, revision and platform.  When
 * none matches, the labels of the last entry are used (the loop variable
 * keeps its last value) and the nine observed fields are attached for
 * diagnosis.  The MAC addresses come from the file system and are inputs here.
 */
module Catalog {
  import opened Wrappers
  import opened PyStr
  import opened CpuInfoParser

  /** A catalog entry: a board's labels and its fingerprint. */
  datatype HwDef = HwDef(name: string, revision: string, platform: string, cpuinfo: CpuInfo)

  /** `HW_DEFS`, in catalog order. */
  const HwDefs: seq<HwDef> := [
    HwDef("Controllino Hotspot", "1.0", "Raspberry Pi 4b rev1.4",
      DefaultCpuInfo.(
        numProcessors := 4,
        cpuImplementer := Some("0x41"),
        cpuArchitecture := Some("8"),
        cpuVariant := Some("0x0"),
        cpuPart := Some("0xd08"),
        cpuRevision := Some("3"),
        hwHardware := "bcm2835",
        hwRevision := "d03114",
        hwModel := "raspberry pi 4 model b rev 1.4")),
    HwDef("Controllino Hotspot", "1.1", "Rock Pi 4b rev1.5",
      DefaultCpuInfo.(
        numProcessors := 6,
        cpuImplementer := Some("0x41"),
        cpuArchitecture := Some("8"),
        cpuVariant := Some("0x0"),
        cpuPart := Some("0xd03|0xd08"),
        cpuRevision := Some("2|4"),
        hwHardware := "",
        hwRevision := "",
        hwModel := ""))
  ]

  /** The nine observed fields the matcher compares, which are also the
      contents of the `debug` record. */
  datatype Fingerprint = Fingerprint(
    numProcessors: int,
    cpuImplementer: Option<string>,
    cpuArchitecture: Option<string>,
    cpuVariant: Option<string>,
    cpuPart: Option<string>,
    cpuRevision: Option<string>,
    hwHardware: string,
    hwRevision: string,
    hwModel: string)

  function Observed(c: CpuInfo): Fingerprint {
    Fingerprint(c.numProcessors, c.cpuImplementer, c.cpuArchitecture, c.cpuVariant,
      c.cpuPart, c.cpuRevision, c.hwHardware, c.hwRevision, c.hwModel)
  }

  /** The result dict of `get_hwinfo`; `debug` is present only on fallback. */
  datatype HwInfo = HwInfo(
    model: string,
    revision: string,
    platform: string,
    cpuSerial: string,
    macEth0: string,
    macWlan0: string,
    debug: Option<Fingerprint>)

  /** The comparison in the matcher's loop: nine fields equal, serial ignored. */
  predicate Matches(def: HwDef, cur: CpuInfo) {
    && def.cpuinfo.numProcessors == cur.numProcessors
    && def.cpuinfo.cpuImplementer == cur.cpuImplementer
    && def.cpuinfo.cpuArchitecture == cur.cpuArchitecture
    && def.cpuinfo.cpuVariant == cur.cpuVariant
    && def.cpuinfo.cpuPart == cur.cpuPart
    && def.cpuinfo.cpuRevision == cur.cpuRevision
    && def.cpuinfo.hwHardware == cur.hwHardware
    && def.cpuinfo.hwRevision == cur.hwRevision
    && def.cpuinfo.hwModel == cur.hwModel
  }

  /** Matching is equality of the observed fingerprints. */
  lemma MatchesIsFingerprintEquality(def: HwDef, cur: CpuInfo)
    ensures Matches(def, cur) <==> Observed(def.cpuinfo) == Observed(cur)
  {
  }

  /** The index of the first entry that matches, if any. */
  function FirstMatch(defs: seq<HwDef>, cur: CpuInfo): (r: Option<int>)
    ensures r.Some? ==> 0 <= r.value < |defs| && Matches(defs[r.value], cur)
    ensures r.Some? ==> forall j :: 0 <= j < r.value ==> !Matches(defs[j], cur)
    ensures r.None? ==> forall j :: 0 <= j < |defs| ==> !Matches(defs[j], cur)
  {
    if defs == [] then None
    else if Matches(defs[0], cur) then Some(0)
    else
      match FirstMatch(defs[1..], cur)
      case None => None
      case Some(i) => Some(i + 1)
  }

  /** The entry whose labels an unmatched fingerprint gets: the last one, the
      value the loop variable is left with. */
  function FallbackLabel(defs: seq<HwDef>): HwDef
    requires defs != []
  {
    defs[|defs| - 1]
  }

  /** What `get_hwinfo` returns for the observed `cur` over the catalog `defs`. */
  function Lookup(defs: seq<HwDef>, cur: CpuInfo, macEth0: string, macWlan0: string): HwInfo
    requires defs != []
  {
    match FirstMatch(defs, cur)
    case Some(i) =>
      HwInfo(defs[i].name, defs[i].revision, defs[i].platform, cur.hwSerial, macEth0, macWlan0, None)
    case None =>
      var last := FallbackLabel(defs);
      HwInfo(last.name, last.revision, last.platform, cur.hwSerial, macEth0, macWlan0, Some(Observed(cur)))
  }

  /** `get_hwinfo(cur)`, with the two MAC addresses already read. */
  method GetHwInfo(cur: CpuInfo, macEth0: string, macWlan0: string) returns (out: HwInfo)
    ensures out == Lookup(HwDefs, cur, macEth0, macWlan0)
  {
    var model := HwDefs[0];
    for i := 0 to |HwDefs|
      invariant forall j :: 0 <= j < i ==> !Matches(HwDefs[j], cur)
      invariant i > 0 ==> model == HwDefs[i - 1]
    {
      model := HwDefs[i];
      if Matches(model, cur) {
        out := HwInfo(model.name, model.revision, model.platform, cur.hwSerial, macEth0, macWlan0, None);
        return;
      }
    }
    out := HwInfo(model.name, model.revision, model.platform, cur.hwSerial, macEth0, macWlan0,
      Some(Observed(cur)));
  }

  // ----------------------------------------------------------- properties

  /** The first matching entry labels the result, which has no `debug`. */
  lemma LookupFirstMatch(defs: seq<HwDef>, cur: CpuInfo, macEth0: string, macWlan0: string, i: int)
    requires 0 <= i < |defs| && Matches(defs[i], cur)
    requires forall j :: 0 <= j < i ==> !Matches(defs[j], cur)
    ensures var out := Lookup(defs, cur, macEth0, macWlan0);
      && out.model == defs[i].name && out.revision == defs[i].revision
      && out.platform == defs[i].platform && out.debug == None
  {
  }

  /** Without a match the last entry labels the result and `debug` holds the
      nine observed fields. */
  lemma LookupNoMatch(defs: seq<HwDef>, cur: CpuInfo, macEth0: string, macWlan0: string)
    requires defs != []
    requires forall j :: 0 <= j < |defs| ==> !Matches(defs[j], cur)
    ensures Lookup(defs, cur, macEth0, macWlan0) ==
      HwInfo(defs[|defs| - 1].name, defs[|defs| - 1].revision, defs[|defs| - 1].platform,
        cur.hwSerial, macEth0, macWlan0, Some(Observed(cur)))
  {
  }

  /** `debug` is present exactly when no entry matches; the serial and the
      MAC addresses are always the observed ones. */
  lemma LookupDebugIffUnmatched(defs: seq<HwDef>, cur: CpuInfo, macEth0: string, macWlan0: string)
    requires defs != []
    ensures var out := Lookup(defs, cur, macEth0, macWlan0);
      && (out.debug.Some? <==> forall j :: 0 <= j < |defs| ==> !Matches(defs[j], cur))
      && out.cpuSerial == cur.hwSerial && out.macEth0 == macEth0 && out.macWlan0 == macWlan0
  {
  }

  /** The serial takes no part in matching: changing it changes only the
      reported serial. */
  lemma LookupIgnoresSerial(defs: seq<HwDef>, cur: CpuInfo, serial: string, macEth0: string, macWlan0: string)
    requires defs != []
    ensures Lookup(defs, cur.(hwSerial := serial), macEth0, macWlan0)
      == Lookup(defs, cur, macEth0, macWlan0).(cpuSerial := serial)
  {
    var cur' := cur.(hwSerial := serial);
    assert forall j :: 0 <= j < |defs| ==> (Matches(defs[j], cur') <==> Matches(defs[j], cur));
    assert Observed(cur') == Observed(cur);
    FirstMatchRespects(defs, cur, cur');
  }

  lemma {:induction false} FirstMatchRespects(defs: seq<HwDef>, a: CpuInfo, b: CpuInfo)
    requires forall j :: 0 <= j < |defs| ==> (Matches(defs[j], a) <==> Matches(defs[j], b))
    ensures FirstMatch(defs, a) == FirstMatch(defs, b)
  {
    if defs != [] {
      assert forall j :: 0 <= j < |defs| - 1 ==> defs[1..][j] == defs[j + 1];
      FirstMatchRespects(defs[1..], a, b);
    }
  }

  /** No fingerprint matches both catalog entries: their processor counts
      differ. */
  lemma CatalogEntriesDisjoint(cur: CpuInfo)
    ensures !(Matches(HwDefs[0], cur) && Matches(HwDefs[1], cur))
  {
  }

  /** Every catalog entry is recognised from its own fingerprint, whatever the
      board's serial. */
  lemma CatalogSelfMatch(i: int, serial: string, macEth0: string, macWlan0: string)
    requires 0 <= i < |HwDefs|
    ensures Lookup(HwDefs, HwDefs[i].cpuinfo.(hwSerial := serial), macEth0, macWlan0)
      == HwInfo(HwDefs[i].name, HwDefs[i].revision, HwDefs[i].platform, serial, macEth0, macWlan0, None)
  {
    var cur := HwDefs[i].cpuinfo.(hwSerial := serial);
    assert Matches(HwDefs[i], cur);
    LookupFirstMatch(HwDefs, cur, macEth0, macWlan0, i);
  }

  /** A processor count other than 4 or 6 (zero, say) always falls back to
      the last entry's labels, with `debug` attached. */
  lemma UnknownCountFallsBack(cur: CpuInfo, macEth0: string, macWlan0: string)
    requires cur.numProcessors != 4 && cur.numProcessors != 6
    ensures Lookup(HwDefs, cur, macEth0, macWlan0) ==
      HwInfo("Controllino Hotspot", "1.1", "Rock Pi 4b rev1.5", cur.hwSerial, macEth0, macWlan0,
        Some(Observed(cur)))
  {
    LookupNoMatch(HwDefs, cur, macEth0, macWlan0);
  }

  /** `get_hwinfo(get_cpuinfo())` on the text of `/proc/cpuinfo`. */
  method Detect(raw: string, macEth0: string, macWlan0: string) returns (r: Result<HwInfo, ParseError>)
    ensures CpuInfoOf(raw).Failure? ==> r == Failure(CpuInfoOf(raw).error)
    ensures CpuInfoOf(raw).Success? ==> r == Success(Lookup(HwDefs, CpuInfoOf(raw).value, macEth0, macWlan0))
  {
    var cur :- GetCpuInfo(raw);
    var out := GetHwInfo(cur, macEth0, macWlan0);
    return Success(out);
  }

  /** Text with a board block but no processor block is never recognised: it
      is labelled as the last entry, with `debug` attached. */
  lemma NoProcessorTextFallsBack(raw: string, macEth0: string, macWlan0: string)
    requires ProcessorIndices(Split(raw, "\n\n")) == {}
    requires HardwareBlocks(Split(raw, "\n\n")) != []
    ensures CpuInfoOf(raw).Success?
    ensures Lookup(HwDefs, CpuInfoOf(raw).value, macEth0, macWlan0).debug.Some?
  {
    NoProcessorsParse(raw);
    UnknownCountFallsBack(CpuInfoOf(raw).value, macEth0, macWlan0);
  }
}
