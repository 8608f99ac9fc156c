/**
 * The env-file text the detector writes and prints: a fixed comment header,
 * then one `CTRL_<KEY>="<value>"` line per entry of the result dict, in the
 * dict's order, skipping `debug`.  Writing the file, printing it and the JSON
 * output are not modelled.
 */
module Report {
  import opened Wrappers
  import opened PyStr
  import opened Catalog

  /** A value of the result dict: a string, or the `debug` record. */
  datatype Value = Text(s: string) | Record(fp: Fingerprint)

  /** `hwinfo.items()`: the result dict's entries in insertion order. */
  function Items(h: HwInfo): (items: seq<(string, Value)>)
    ensures |items| == if h.debug.Some? then 7 else 6
    ensures forall i :: 0 <= i < |items| ==> (items[i].0 == "debug" <==> items[i].1.Record?)
  {
    [ ("model", Text(h.model)),
      ("revision", Text(h.revision)),
      ("platform", Text(h.platform)),
      ("cpu_serial", Text(h.cpuSerial)),
      ("mac_eth0", Text(h.macEth0)),
      ("mac_wlan0", Text(h.macWlan0)) ]
    + match h.debug
      case Some(d) => [("debug", Record(d))]
      case None => []
  }

  /** Every entry but `debug` holds a string. */
  predicate TextValued(items: seq<(string, Value)>) {
    forall i :: 0 <= i < |items| ==> items[i].0 != "debug" ==> items[i].1.Text?
  }

  const HeaderLine := "# Controllino Hardware Info"

  /** The line written for one entry, without its terminator. */
  function EnvLine(key: string, value: string): string {
    "CTRL_" + Upper(key) + "=\"" + value + "\""
  }

  /** The env text accumulated over `items`, entry by entry. */
  function EnvOf(items: seq<(string, Value)>): string
    requires TextValued(items)
  {
    if items == [] then HeaderLine + "\n"
    else
      var n := |items| - 1;
      var (k, v) := items[n];
      EnvOf(items[..n]) + if k == "debug" then "" else EnvLine(k, v.s) + "\n"
  }

  /** The loop that builds `env` from the result dict's entries
      (`Items(hwinfo)` in the detector). */
  method EnvText(items: seq<(string, Value)>) returns (env: string)
    requires TextValued(items)
    ensures env == EnvOf(items)
  {
    env := "# Controllino Hardware Info\n";
    for i := 0 to |items|
      invariant env == EnvOf(items[..i])
    {
      var (k, v) := items[i];
      assert items[..i + 1][..i] == items[..i];
      if !(k == "debug") {
        env := env + "CTRL_" + Upper(k) + "=\"" + v.s + "\"\n";
      }
    }
    assert items[..|items|] == items;
  }

  /** The lines of the env text, in order. */
  function EnvLines(h: HwInfo): seq<string> {
    [ HeaderLine,
      "CTRL_MODEL=\"" + h.model + "\"",
      "CTRL_REVISION=\"" + h.revision + "\"",
      "CTRL_PLATFORM=\"" + h.platform + "\"",
      "CTRL_CPU_SERIAL=\"" + h.cpuSerial + "\"",
      "CTRL_MAC_ETH0=\"" + h.macEth0 + "\"",
      "CTRL_MAC_WLAN0=\"" + h.macWlan0 + "\"" ]
  }

  /** The upper-case forms of the six string keys. */
  lemma UpperKeys()
    ensures Upper("model") == "MODEL" && Upper("revision") == "REVISION"
    ensures Upper("platform") == "PLATFORM" && Upper("cpu_serial") == "CPU_SERIAL"
    ensures Upper("mac_eth0") == "MAC_ETH0" && Upper("mac_wlan0") == "MAC_WLAN0"
  {
  }

  /** The lines `EnvOf` writes over `items`, without their terminators. */
  function EnvLinesOf(items: seq<(string, Value)>): (lines: seq<string>)
    requires TextValued(items)
    ensures lines != [] && lines[0] == HeaderLine
  {
    if items == [] then [HeaderLine]
    else
      var n := |items| - 1;
      var (k, v) := items[n];
      EnvLinesOf(items[..n]) + if k == "debug" then [] else [EnvLine(k, v.s)]
  }

  /** The env text is its lines, each followed by a newline. */
  lemma {:induction false} EnvOfLines(items: seq<(string, Value)>)
    requires TextValued(items)
    ensures EnvOf(items) == Terminated(EnvLinesOf(items))
  {
    if items != [] {
      var n := |items| - 1;
      var (k, v) := items[n];
      EnvOfLines(items[..n]);
      if k != "debug" {
        TerminatedSnoc(EnvLinesOf(items[..n]), EnvLine(k, v.s));
      } else {
        assert EnvLinesOf(items) == EnvLinesOf(items[..n]);
      }
    }
  }

  /** Without a `debug` entry, every entry writes exactly its own line. */
  lemma {:induction false} EnvLinesOfStrings(items: seq<(string, Value)>)
    requires forall i :: 0 <= i < |items| ==> items[i].0 != "debug" && items[i].1.Text?
    ensures |EnvLinesOf(items)| == |items| + 1
    ensures forall i :: 1 <= i <= |items| ==> EnvLinesOf(items)[i] == EnvLine(items[i - 1].0, items[i - 1].1.s)
  {
    if items != [] {
      var n := |items| - 1;
      EnvLinesOfStrings(items[..n]);
    }
  }

  /** Without a `debug` entry, the lines are the header and each entry's own
      line, in order. */
  lemma LinesOfStrings(items: seq<(string, Value)>, lines: seq<string>)
    requires forall i :: 0 <= i < |items| ==> items[i].0 != "debug" && items[i].1.Text?
    requires |lines| == |items| + 1 && lines[0] == HeaderLine
    requires forall i :: 1 <= i <= |items| ==> lines[i] == EnvLine(items[i - 1].0, items[i - 1].1.s)
    ensures EnvLinesOf(items) == lines
  {
    EnvLinesOfStrings(items);
  }

  /** The line of a key whose line starts with `prefix`. */
  lemma KeyLine(key: string, prefix: string, value: string)
    requires "CTRL_" + Upper(key) + "=\"" == prefix
    ensures EnvLine(key, value) == prefix + value + "\""
  {
  }

  /** The lines over the six string entries are the header and the six
      `CTRL_` lines. */
  lemma FieldsLines(h: HwInfo)
    ensures EnvLinesOf(Items(h)[..6]) == EnvLines(h)
  {
    var items, lines := Items(h)[..6], EnvLines(h);
    UpperKeys();
    KeyLine("model", "CTRL_MODEL=\"", h.model);
    KeyLine("revision", "CTRL_REVISION=\"", h.revision);
    KeyLine("platform", "CTRL_PLATFORM=\"", h.platform);
    KeyLine("cpu_serial", "CTRL_CPU_SERIAL=\"", h.cpuSerial);
    KeyLine("mac_eth0", "CTRL_MAC_ETH0=\"", h.macEth0);
    KeyLine("mac_wlan0", "CTRL_MAC_WLAN0=\"", h.macWlan0);
    forall i | 1 <= i <= |items| ensures lines[i] == EnvLine(items[i - 1].0, items[i - 1].1.s) {
      if i == 1 { assert items[0] == ("model", Text(h.model)); }
      else if i == 2 { assert items[1] == ("revision", Text(h.revision)); }
      else if i == 3 { assert items[2] == ("platform", Text(h.platform)); }
      else if i == 4 { assert items[3] == ("cpu_serial", Text(h.cpuSerial)); }
      else if i == 5 { assert items[4] == ("mac_eth0", Text(h.macEth0)); }
      else { assert items[5] == ("mac_wlan0", Text(h.macWlan0)); }
    }
    LinesOfStrings(items, lines);
  }

  /** The lines over `Items(h)` are the header and the six `CTRL_` lines. */
  lemma ItemsLines(h: HwInfo)
    ensures EnvLinesOf(Items(h)) == EnvLines(h)
  {
    FieldsLines(h);
    var items := Items(h);
    if h.debug.Some? {
      assert items[..6] == items[..|items| - 1];
    } else {
      assert items[..6] == items;
    }
  }

  /** The env text is the header and then exactly one line per string field,
      in the dict's order; `debug` contributes nothing. */
  lemma EnvTextLines(h: HwInfo)
    ensures EnvOf(Items(h)) == Terminated(EnvLines(h))
  {
    EnvOfLines(Items(h));
    ItemsLines(h);
  }

  /** Attaching `debug` does not change the env text. */
  lemma EnvIgnoresDebug(h: HwInfo)
    ensures EnvOf(Items(h)) == EnvOf(Items(h.(debug := None)))
  {
    EnvTextLines(h);
    EnvTextLines(h.(debug := None));
  }

  /** A line holds no line boundary when neither its key nor its value does:
      upper-casing maps no character to a boundary. */
  lemma EnvLineNoBreak(key: string, value: string)
    requires NoLineBreak(key) && NoLineBreak(value)
    ensures NoLineBreak(EnvLine(key, value))
  {
    var upper := Upper(key);
    assert NoLineBreak(upper) by {
      forall i | 0 <= i < |upper| ensures !IsLineBreak(upper[i]) {
        assert !IsLineBreak(key[i]);
      }
    }
    NoLineBreakConcat("CTRL_", upper);
    NoLineBreakConcat("CTRL_" + upper, "=\"");
    NoLineBreakConcat("CTRL_" + upper + "=\"", value);
    NoLineBreakConcat("CTRL_" + upper + "=\"" + value, "\"");
  }

  /** Entries whose keys and string values hold no line boundary write lines
      that hold none. */
  lemma {:induction false} EnvLinesOfNoBreak(items: seq<(string, Value)>)
    requires TextValued(items)
    requires forall i :: 0 <= i < |items| ==> NoLineBreak(items[i].0)
    requires forall i :: 0 <= i < |items| ==> items[i].1.Text? ==> NoLineBreak(items[i].1.s)
    ensures forall k :: 0 <= k < |EnvLinesOf(items)| ==> NoLineBreak(EnvLinesOf(items)[k])
  {
    if items != [] {
      var n := |items| - 1;
      var (key, v) := items[n];
      EnvLinesOfNoBreak(items[..n]);
      if key != "debug" {
        EnvLineNoBreak(key, v.s);
      }
    }
  }

  /** No line of the env text holds a line boundary when no value does. */
  lemma EnvLinesNoBreak(h: HwInfo)
    requires NoLineBreak(h.model) && NoLineBreak(h.revision) && NoLineBreak(h.platform)
    requires NoLineBreak(h.cpuSerial) && NoLineBreak(h.macEth0) && NoLineBreak(h.macWlan0)
    ensures forall k :: 0 <= k < |EnvLines(h)| ==> NoLineBreak(EnvLines(h)[k])
  {
    var items := Items(h);
    forall i | 0 <= i < |items| ensures NoLineBreak(items[i].0) {
      assert items[i].0 in ["model", "revision", "platform", "cpu_serial", "mac_eth0", "mac_wlan0", "debug"];
    }
    EnvLinesOfNoBreak(items);
    ItemsLines(h);
  }

  /** When no value holds a line boundary, the env text reads back, line by
      line, as the header and the six `CTRL_` lines: `debug` leaves no line. */
  lemma EnvTextReadsBack(h: HwInfo)
    requires NoLineBreak(h.model) && NoLineBreak(h.revision) && NoLineBreak(h.platform)
    requires NoLineBreak(h.cpuSerial) && NoLineBreak(h.macEth0) && NoLineBreak(h.macWlan0)
    ensures SplitLines(EnvOf(Items(h))) == EnvLines(h)
  {
    EnvTextLines(h);
    EnvLinesNoBreak(h);
    SplitLinesTerminated(EnvLines(h));
  }

  /** A line whose key part differs from `DEBUG` in its first letter does not
      start with `CTRL_DEBUG`. */
  lemma FieldLineNotDebug(prefix: string, value: string)
    requires |prefix| > 5 && prefix[5] != 'D'
    ensures !StartsWith(prefix + value + "\"", "CTRL_DEBUG")
  {
    assert (prefix + value + "\"")[5] == prefix[5];
    assert "CTRL_DEBUG"[5] == 'D';
  }

  /** No line of the env text starts with `CTRL_DEBUG`. */
  lemma EnvNoDebugLine(h: HwInfo)
    ensures forall k :: 0 <= k < |EnvLines(h)| ==> !StartsWith(EnvLines(h)[k], "CTRL_DEBUG")
  {
    var lines := EnvLines(h);
    forall k | 0 <= k < |lines| ensures !StartsWith(lines[k], "CTRL_DEBUG") {
      if k == 0 { assert lines[0][0] == '#'; }
      else if k == 1 { FieldLineNotDebug("CTRL_MODEL=\"", h.model); }
      else if k == 2 { FieldLineNotDebug("CTRL_REVISION=\"", h.revision); }
      else if k == 3 { FieldLineNotDebug("CTRL_PLATFORM=\"", h.platform); }
      else if k == 4 { FieldLineNotDebug("CTRL_CPU_SERIAL=\"", h.cpuSerial); }
      else if k == 5 { FieldLineNotDebug("CTRL_MAC_ETH0=\"", h.macEth0); }
      else { FieldLineNotDebug("CTRL_MAC_WLAN0=\"", h.macWlan0); }
    }
  }
}
