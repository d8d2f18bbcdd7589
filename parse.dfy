/**
 * `parse` (lib/networking.js:65-144): decodes the normalized interfaces text
 * into `{auto, ifaces}`. The two regular expressions it uses are modelled on
 * text positions: `^auto(.+)$` (multiline) finds the first line that starts
 * with `auto` and has at least one more character, and `^iface[\W\w]*?(?=#)`
 * (global, multiline) takes every stretch from an `iface` at a line start up
 * to the next `#` anywhere.
 */
module Parse {
  import opened Wrappers
  import opened Strings
  import opened Settings
  import opened Normalization

  /** One parsed stanza (lib/networking.js:111-122). */
  datatype Iface = Iface(
    auto: bool,
    device: Option<string>,
    mode: Option<string>,
    wired: bool,
    bluetooth: bool,
    loopback: bool,
    wireless: bool,
    staticSettings: Option<Settings>,
    dhcpSettings: Option<Settings>,
    raw: string)

  /** The resolved value `{auto, ifaces}`. */
  datatype Document = Document(auto: seq<string>, ifaces: seq<Iface>)

  /**
   * Why `parse` rejects. NotAnObject stands for the two JavaScript TypeErrors:
   * `null.forEach` when no stanza matches, and a setting assigned under a mode
   * whose property is not an object.
   */
  datatype ParseError = MissingAuto | IncorrectIface(line: string) | NotAnObject

  /** The rejection's message. */
  function Message(e: ParseError): string
  {
    match e
    case MissingAuto => "Parse error! Missing `auto` definition!"
    case IncorrectIface(line) => "Parse error! Incorrect iface definition at: '" + line + "'"
    case NotAnObject => "TypeError"
  }

  // ---------------------------------------------------------------------
  // The two regular expressions

  /** `^` in multiline mode matches at `p`. */
  predicate LineStart(t: string, p: nat)
    requires p <= |t|
  {
    p == 0 || IsLineTerminator(t[p - 1])
  }

  /** `^auto(.+)$` matches at `p`: a line start, `auto`, then a character of the same line. */
  predicate AutoAt(t: string, p: nat)
  {
    p + 4 < |t| && LineStart(t, p) && t[p..p + 4] == "auto" && !IsLineTerminator(t[p + 4])
  }

  /** Where the line holding position `p` ends (`$` in multiline mode). */
  function LineEnd(t: string, p: nat): (e: nat)
    requires p <= |t|
    ensures p <= e <= |t|
    ensures e == |t| || IsLineTerminator(t[e])
    decreases |t| - p
  {
    if p == |t| || IsLineTerminator(t[p]) then p else LineEnd(t, p + 1)
  }

  /** No line terminator lies between `p` and the end of its line. */
  lemma {:induction false} LineEndFirst(t: string, p: nat)
    requires p <= |t|
    ensures forall q :: p <= q < LineEnd(t, p) ==> !IsLineTerminator(t[q])
    decreases |t| - p
  {
    if p < |t| && !IsLineTerminator(t[p]) {
      LineEndFirst(t, p + 1);
    }
  }

  /** The first position at or after `p` where `^auto(.+)$` matches. */
  function FindAuto(t: string, p: nat): (r: Option<nat>)
    ensures r.Some? ==> p <= r.value && AutoAt(t, r.value)
    decreases |t| - p
  {
    if p >= |t| then None
    else if AutoAt(t, p) then Some(p)
    else FindAuto(t, p + 1)
  }

  /** The scan stops at the first match from `p` on, and finds none only when there is none. */
  lemma {:induction false} FindAutoFirst(t: string, p: nat)
    ensures FindAuto(t, p).Some? ==> forall q :: p <= q < FindAuto(t, p).value ==> !AutoAt(t, q)
    ensures FindAuto(t, p).None? ==> forall q :: p <= q ==> !AutoAt(t, q)
    decreases |t| - p
  {
    if p < |t| && !AutoAt(t, p) {
      FindAutoFirst(t, p + 1);
    }
  }

  /** Group 1 of `/^auto(.+)$/gm.exec(t)`, or None when it does not match. */
  function AutoGroup(t: string): Option<string>
  {
    match FindAuto(t, 0)
    case None => None
    case Some(p) => Some(t[p + 4..LineEnd(t, p + 4)])
  }

  /** `^iface` matches at `p`. */
  predicate IfaceAt(t: string, p: nat)
  {
    p + 5 <= |t| && LineStart(t, p) && t[p..p + 5] == "iface"
  }

  /** The first `#` at or after `p`: where `[\W\w]*?(?=#)` stops. */
  function FindHash(t: string, p: nat): (r: Option<nat>)
    ensures r.Some? ==> p <= r.value < |t| && t[r.value] == '#'
    decreases |t| - p
  {
    if p >= |t| then None
    else if t[p] == '#' then Some(p)
    else FindHash(t, p + 1)
  }

  /** The `#` found is the first from `p` on, and none is found only when there is none. */
  lemma {:induction false} FindHashFirst(t: string, p: nat)
    ensures FindHash(t, p).Some? ==> forall q :: p <= q < FindHash(t, p).value ==> t[q] != '#'
    ensures FindHash(t, p).None? ==> forall q :: p <= q < |t| ==> t[q] != '#'
    decreases |t| - p
  {
    if p < |t| && t[p] != '#' {
      FindHashFirst(t, p + 1);
    }
  }

  /**
   * `t.match(/^iface[\W\w]*?(?=#)/gm)` with the scan resumed at `p`: each
   * match runs from an `iface` at a line start up to the next `#`.
   */
  function Blocks(t: string, p: nat): seq<string>
    decreases |t| - p
  {
    if p >= |t| then []
    else if IfaceAt(t, p) then
      match FindHash(t, p + 5)
      case None => []
      case Some(e) => [t[p..e]] + Blocks(t, e)
    else Blocks(t, p + 1)
  }

  /** Every match starts with `iface` and stops right before a `#`, so holds none. */
  lemma {:induction false} BlocksMatch(t: string, p: nat)
    ensures forall k :: 0 <= k < |Blocks(t, p)| ==>
      StartsWith(Blocks(t, p)[k], "iface") && '#' !in Blocks(t, p)[k]
    decreases |t| - p
  {
    if p < |t| {
      if IfaceAt(t, p) {
        match FindHash(t, p + 5)
        case None =>
        case Some(e) =>
          var b := t[p..e];
          assert StartsWith(b, "iface") by {
            assert b[..5] == t[p..p + 5];
          }
          assert '#' !in b by {
            FindHashFirst(t, p + 5);
            forall i | 0 <= i < |b| ensures b[i] != '#' {
              assert b[i] == t[p + i];
              if i < 5 {
                assert t[p + i] == t[p..p + 5][i];
              }
            }
          }
          BlocksMatch(t, e);
          assert Blocks(t, p) == [b] + Blocks(t, e);
      } else {
        BlocksMatch(t, p + 1);
      }
    }
  }

  // ---------------------------------------------------------------------
  // One stanza

  /** The setting a stanza line assigns: its first token, then one token or the token list. */
  function SettingOf(line: string): (string, Value)
  {
    var configs := SplitSpace(line);
    var settings := configs[1..];
    (configs[0], if |settings| == 1 then Scalar(settings[0]) else List(settings))
  }

  /** `iface[mode][index] = ...` for each line in turn, starting from `m`. */
  function ApplyLines(m: Settings, lines: seq<string>): Settings
    decreases |lines|
  {
    if |lines| == 0 then m
    else
      var (key, value) := SettingOf(lines[0]);
      ApplyLines(Put(m, key, value), lines[1..])
  }

  /** The value the last line setting `key` assigns, scanning from the end. */
  function LastValue(lines: seq<string>, key: string): Option<Value>
    decreases |lines|
  {
    if |lines| == 0 then None
    else
      var (k, v) := SettingOf(lines[|lines| - 1]);
      if k == key then Some(v) else LastValue(lines[..|lines| - 1], key)
  }

  /** Applying one more line is one more assignment. */
  lemma {:induction false} ApplyLinesSnoc(m: Settings, a: seq<string>, l: string)
    ensures ApplyLines(m, a + [l]) == Put(ApplyLines(m, a), SettingOf(l).0, SettingOf(l).1)
    decreases |a|
  {
    if |a| == 0 {
      assert [] + [l] == [l];
      assert [l][1..] == [];
    } else {
      assert (a + [l])[0] == a[0];
      assert (a + [l])[1..] == a[1..] + [l];
      ApplyLinesSnoc(Put(m, SettingOf(a[0]).0, SettingOf(a[0]).1), a[1..], l);
    }
  }

  /**
   * A key repeated in a stanza keeps the value of its last line; a key no
   * line sets keeps its value in `m`.
   */
  lemma {:induction false} ApplyLinesLookup(m: Settings, lines: seq<string>, key: string)
    ensures Lookup(ApplyLines(m, lines), key) ==
      match LastValue(lines, key)
      case Some(v) => Some(v)
      case None => Lookup(m, key)
    decreases |lines|
  {
    if |lines| > 0 {
      var a := lines[..|lines| - 1];
      var l := lines[|lines| - 1];
      assert lines == a + [l];
      ApplyLinesSnoc(m, a, l);
      PutLookup(ApplyLines(m, a), SettingOf(l).0, SettingOf(l).1, key);
      ApplyLinesLookup(m, a, key);
    }
  }

  /** The non-empty CRLF-separated lines of a matched stanza. */
  function StanzaLines(entry: string): seq<string>
  {
    NonEmpty(SplitSep(entry, CRLF))
  }

  /**
   * The default object of a stanza whose first line splits into `definition`
   * (lib/networking.js:106-122): an empty device or mode word counts as missing,
   * and the classification flags test the device name for `eth`, `bnep`, `lo`
   * and `wlan`.
   */
  function Defaults(definition: seq<string>, autoList: seq<string>, entry: string): (iface: Iface)
    requires |definition| >= 4
    ensures iface.device == (if definition[1] == "" then None else Some(definition[1]))
    ensures iface.mode == (if definition[3] == "" then None else Some(definition[3]))
    ensures iface.auto <==> definition[1] != "" && definition[1] in autoList
    ensures iface.wired <==> Includes(definition[1], "eth")
    ensures iface.bluetooth <==> Includes(definition[1], "bnep")
    ensures iface.loopback <==> Includes(definition[1], "lo")
    ensures iface.wireless <==> Includes(definition[1], "wlan")
    ensures iface.staticSettings == (if definition[3] == "static" then Some([]) else None)
    ensures iface.dhcpSettings == (if definition[3] == "dhcp" then Some([]) else None)
    ensures iface.raw == entry
  {
    var device := if definition[1] == "" then None else Some(definition[1]);
    var mode := if definition[3] == "" then None else Some(definition[3]);
    Iface(
      auto := device.Some? && device.value in autoList,
      device := device,
      mode := mode,
      wired := device.Some? && Includes(device.value, "eth"),
      bluetooth := device.Some? && Includes(device.value, "bnep"),
      loopback := device.Some? && Includes(device.value, "lo"),
      wireless := device.Some? && Includes(device.value, "wlan"),
      staticSettings := if mode == Some("static") then Some([]) else None,
      dhcpSettings := if mode == Some("dhcp") then Some([]) else None,
      raw := entry)
  }

  /** The callback of lib/networking.js:94-137 for one matched stanza. */
  function ParseBlock(entry: string, autoList: seq<string>): (r: Result<Iface, ParseError>)
    ensures var lines := StanzaLines(entry);
      r.Err? && r.error.IncorrectIface? <==> |lines| > 0 && |SplitSpace(lines[0])| < 4
    ensures r.Err? && r.error.IncorrectIface? ==> r.error.line == StanzaLines(entry)[0]
    ensures r.Ok? ==> (r.value.staticSettings.Some? <==> r.value.mode == Some("static"))
    ensures r.Ok? ==> (r.value.dhcpSettings.Some? <==> r.value.mode == Some("dhcp"))
    ensures r.Ok? ==> r.value.raw == entry
  {
    var lines := StanzaLines(entry);
    if |lines| == 0 then Err(NotAnObject)
    else
      var definition := SplitSpace(lines[0]);
      if |definition| < 4 then Err(IncorrectIface(lines[0]))
      else
        var iface := Defaults(definition, autoList, entry);
        var mode := iface.mode;
        if |lines| == 1 then Ok(iface)
        else if mode == Some("static") then Ok(iface.(staticSettings := Some(ApplyLines([], lines[1..]))))
        else if mode == Some("dhcp") then Ok(iface.(dhcpSettings := Some(ApplyLines([], lines[1..]))))
        else Err(NotAnObject)
  }

  /** The stanzas parsed in order after `acc`; the first rejection stops the walk. */
  function ParseBlocks(acc: seq<Iface>, blocks: seq<string>, autoList: seq<string>)
    : Result<seq<Iface>, ParseError>
    decreases |blocks|
  {
    if |blocks| == 0 then Ok(acc)
    else
      match ParseBlock(blocks[0], autoList)
      case Err(e) => Err(e)
      case Ok(iface) => ParseBlocks(acc + [iface], blocks[1..], autoList)
  }

  /** `parse` on already normalized text. */
  function ParseText(t: string): (r: Result<Document, ParseError>)
    ensures r == Err(MissingAuto) <==> FindAuto(t, 0).None?
  {
    match AutoGroup(t)
    case None => Err(MissingAuto)
    case Some(group) =>
      var autoList := NonEmpty(SplitSpace(group));
      var blocks := Blocks(t, 0);
      if |blocks| == 0 then Err(NotAnObject)
      else
        match ParseBlocks([], blocks, autoList)
        case Err(e) =>
          ParseBlocksError([], blocks, autoList);
          Err(e)
        case Ok(ifaces) => Ok(Document(autoList, ifaces))
  }

  /** `parse` of the file text. */
  function Parsed(interfaces: string): Result<Document, ParseError>
  {
    ParseText(Normalized(interfaces))
  }

  // ---------------------------------------------------------------------
  // The imperative parser

  /** The callback body, with its settings loop (lib/networking.js:124-133). */
  method ParseEntry(entry: string, autoList: seq<string>) returns (r: Result<Iface, ParseError>)
    ensures r == ParseBlock(entry, autoList)
  {
    var lines := StanzaLines(entry);
    if |lines| == 0 {
      return Err(NotAnObject);
    }
    var definition := SplitSpace(lines[0]);
    if |definition| < 4 {
      return Err(IncorrectIface(lines[0]));
    }
    var iface := Defaults(definition, autoList, entry);
    var mode := iface.mode;
    if |lines| > 1 {
      if mode != Some("static") && mode != Some("dhcp") {
        return Err(NotAnObject);
      }
      var bucket: Settings := [];
      var i := 1;
      while i < |lines|
        invariant 1 <= i <= |lines|
        invariant ApplyLines([], lines[1..]) == ApplyLines(bucket, lines[i..])
      {
        var configs := SplitSpace(lines[i]);
        var index := configs[0];
        var settings := configs[1..];
        bucket := Put(bucket, index, if |settings| == 1 then Scalar(settings[0]) else List(settings));
        assert lines[i..][1..] == lines[i + 1..];
        i := i + 1;
      }
      assert lines[i..] == [];
      if mode == Some("static") {
        iface := iface.(staticSettings := Some(bucket));
      } else {
        iface := iface.(dhcpSettings := Some(bucket));
      }
    }
    r := Ok(iface);
  }

  /** lib/networking.js:68-139 on the text of the file. */
  method Parse(interfaces: string) returns (result: Result<Document, ParseError>)
    ensures result == Parsed(interfaces)
  {
    var normalized := Normalize(interfaces);
    result := ParseNormalized(normalized);
  }

  /** lib/networking.js:76-139: the `auto` list, then the stanzas, of the normalized text. */
  method ParseNormalized(normalized: string) returns (result: Result<Document, ParseError>)
    ensures result == ParseText(normalized)
  {
    var lineAuto := AutoGroup(normalized);
    if lineAuto.None? {
      return Err(MissingAuto);
    }
    var tokens := NonEmpty(SplitSpace(lineAuto.value));
    var auto: seq<string> := [];
    var i := 0;
    while i < |tokens|
      invariant 0 <= i <= |tokens|
      invariant auto == tokens[..i]
    {
      auto := auto + [tokens[i]];
      i := i + 1;
    }
    assert tokens[..i] == tokens;
    var entries := Blocks(normalized, 0);
    if |entries| == 0 {
      return Err(NotAnObject);
    }
    var ifaces := ParseEntries(entries, auto);
    result := match ifaces
      case Err(e) => Err(e)
      case Ok(v) => Ok(Document(auto, v));
  }

  /** The `forEach` over the matched stanzas (lib/networking.js:94-137): the first throw stops it. */
  method ParseEntries(entries: seq<string>, auto: seq<string>) returns (r: Result<seq<Iface>, ParseError>)
    ensures r == ParseBlocks([], entries, auto)
  {
    var ifaces: seq<Iface> := [];
    var k := 0;
    while k < |entries|
      invariant 0 <= k <= |entries|
      invariant ParseBlocks([], entries, auto) == ParseBlocks(ifaces, entries[k..], auto)
    {
      var iface := ParseEntry(entries[k], auto);
      if iface.Err? {
        return Err(iface.error);
      }
      assert entries[k..][1..] == entries[k + 1..];
      ifaces := ifaces + [iface.value];
      k := k + 1;
    }
    assert entries[k..] == [];
    r := Ok(ifaces);
  }

  // ---------------------------------------------------------------------
  // Lemmas

  /** A rejected walk never comes back as MissingAuto. */
  lemma {:induction false} ParseBlocksError(acc: seq<Iface>, blocks: seq<string>, autoList: seq<string>)
    ensures ParseBlocks(acc, blocks, autoList) != Err(MissingAuto)
    decreases |blocks|
  {
    if |blocks| > 0 && ParseBlock(blocks[0], autoList).Ok? {
      ParseBlocksError(acc + [ParseBlock(blocks[0], autoList).value], blocks[1..], autoList);
    }
  }

  /** Setting lines under a mode other than `static` or `dhcp` fail: `iface[mode]` is not an object. */
  lemma ParseBlockOtherMode(entry: string, autoList: seq<string>)
    requires |StanzaLines(entry)| > 1 && |SplitSpace(StanzaLines(entry)[0])| >= 4
    requires SplitSpace(StanzaLines(entry)[0])[3] != "static"
    requires SplitSpace(StanzaLines(entry)[0])[3] != "dhcp"
    ensures ParseBlock(entry, autoList) == Err(NotAnObject)
  {
  }

  /**
   * A stanza with setting lines decodes only under `static` or `dhcp`, and
   * the settings of that mode give each key the value of its last line.
   */
  lemma ParseBlockSettings(entry: string, autoList: seq<string>, key: string)
    requires ParseBlock(entry, autoList).Ok? && |StanzaLines(entry)| > 1
    ensures var iface := ParseBlock(entry, autoList).value;
      var bucket := if iface.mode == Some("static") then iface.staticSettings else iface.dhcpSettings;
      && (iface.mode == Some("static") || iface.mode == Some("dhcp"))
      && bucket.Some? && Lookup(bucket.value, key) == LastValue(StanzaLines(entry)[1..], key)
  {
    ApplyLinesLookup([], StanzaLines(entry)[1..], key);
  }

  /** Every stanza decodes. */
  predicate AllDecode(blocks: seq<string>, autoList: seq<string>)
  {
    forall k :: 0 <= k < |blocks| ==> ParseBlock(blocks[k], autoList).Ok?
  }

  /** The entries of stanzas that all decode, in order. */
  function Decoded(blocks: seq<string>, autoList: seq<string>): (r: seq<Iface>)
    requires AllDecode(blocks, autoList)
    ensures |r| == |blocks|
    ensures forall k :: 0 <= k < |blocks| ==> r[k] == ParseBlock(blocks[k], autoList).value
    decreases |blocks|
  {
    if |blocks| == 0 then []
    else
      AllDecodeCons(blocks, autoList);
      [ParseBlock(blocks[0], autoList).value] + Decoded(blocks[1..], autoList)
  }

  /** All stanzas decode iff the first does and all the others do. */
  lemma AllDecodeCons(blocks: seq<string>, autoList: seq<string>)
    requires |blocks| > 0
    ensures AllDecode(blocks, autoList) <==>
      ParseBlock(blocks[0], autoList).Ok? && AllDecode(blocks[1..], autoList)
  {
    if ParseBlock(blocks[0], autoList).Ok? && AllDecode(blocks[1..], autoList) {
      forall k | 0 < k < |blocks| ensures ParseBlock(blocks[k], autoList).Ok? {
        assert blocks[k] == blocks[1..][k - 1];
      }
    }
  }

  /**
   * The walk succeeds iff every stanza decodes, and then yields one entry per
   * stanza, in file order, after those already parsed.
   */
  lemma {:induction false} ParseBlocksAll(acc: seq<Iface>, blocks: seq<string>, autoList: seq<string>)
    ensures ParseBlocks(acc, blocks, autoList).Ok? <==> AllDecode(blocks, autoList)
    ensures AllDecode(blocks, autoList) ==>
      ParseBlocks(acc, blocks, autoList) == Ok(acc + Decoded(blocks, autoList))
    decreases |blocks|
  {
    if |blocks| > 0 {
      AllDecodeCons(blocks, autoList);
      var first := ParseBlock(blocks[0], autoList);
      if first.Ok? {
        ParseBlocksAll(acc + [first.value], blocks[1..], autoList);
        if AllDecode(blocks, autoList) {
          assert acc + [first.value] + Decoded(blocks[1..], autoList) == acc + Decoded(blocks, autoList);
        }
      }
    } else {
      assert acc + [] == acc;
    }
  }

  /** The walk rejects with the error of the first stanza that does not decode. */
  lemma {:induction false} ParseBlocksFirstError(acc: seq<Iface>, blocks: seq<string>, autoList: seq<string>, i: nat)
    requires i < |blocks| && ParseBlock(blocks[i], autoList).Err?
    requires AllDecode(blocks[..i], autoList)
    ensures ParseBlocks(acc, blocks, autoList) == Err(ParseBlock(blocks[i], autoList).error)
    decreases i
  {
    if i > 0 {
      AllDecodeCons(blocks[..i], autoList);
      assert blocks[..i][0] == blocks[0];
      assert blocks[..i][1..] == blocks[1..][..i - 1];
      assert blocks[1..][i - 1] == blocks[i];
      ParseBlocksFirstError(acc + [ParseBlock(blocks[0], autoList).value], blocks[1..], autoList, i - 1);
    }
  }
}
