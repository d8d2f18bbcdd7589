/**
 * `save` (lib/networking.js:170-253): coerces the configuration record in
 * place, validates it and serialises it to the interfaces file text. The
 * write to disk is not modelled; the text that would be written is the result.
 */
module Serialization {
  import opened Wrappers
  import opened Strings
  import opened Settings

  /** `config.auto`: absent, a single value, or an array of device names. */
  datatype AutoField = AutoMissing | AutoScalar(name: string) | AutoArray(names: seq<string>)

  /**
   * One iface object: its `device` and `mode` properties (None when the key
   * is absent) and its object-valued properties, keyed by name, one of
   * which the mode selects as the settings to write.
   */
  datatype IfaceConfig = IfaceConfig(device: Option<Value>, mode: Option<Value>, buckets: map<string, Settings>)

  /** `config.iface`: absent, a single iface object, or an array of them. */
  datatype IfaceField = IfaceMissing | IfaceSingle(config: IfaceConfig) | IfaceArray(configs: seq<IfaceConfig>)

  /** Why `save` rejects. */
  datatype SaveError = MissingIface | MissingProperty(name: string) | UndefinedValue(key: string, shown: string)

  /** The rejection's message. */
  function Message(e: SaveError): string
  {
    match e
    case MissingIface => "Invalid configuration, missing iface!"
    case MissingProperty(name) => "Missing property! Iface property '" + name + "' is required!"
    case UndefinedValue(key, shown) => "Undefined value! iface property '" + key + "' is '" + shown + "'"
  }

  /** The comment line every saved file starts with. */
  const Header: string := "# generated by node.js package `setup`"

  /** The properties every iface object must have, checked in this order. */
  const Required: seq<string> := ["device", "mode"]

  /** JavaScript falsiness of `config.auto`. */
  predicate AutoFalsy(auto: AutoField)
  {
    auto.AutoMissing? || auto == AutoScalar("")
  }

  /** `config.auto` after the coercion of lib/networking.js:173-177. */
  function CoerceAuto(auto: AutoField): seq<string>
  {
    if AutoFalsy(auto) then ["lo"]
    else if auto.AutoScalar? then [auto.name]
    else auto.names
  }

  /** The iface list after the coercion of lib/networking.js:178-182, None when it is missing. */
  function CoerceIface(iface: IfaceField): Option<seq<IfaceConfig>>
  {
    match iface
    case IfaceMissing => None
    case IfaceSingle(c) => Some([c])
    case IfaceArray(cs) => Some(cs)
  }

  /** `Object.keys(iface).includes(name)` */
  predicate HasProperty(c: IfaceConfig, name: string)
  {
    if name == "device" then c.device.Some?
    else if name == "mode" then c.mode.Some?
    else name in c.buckets
  }

  /** `iface[iface.mode]` when it is truthy, and no settings otherwise. */
  function Bucket(c: IfaceConfig): Settings
    requires c.mode.Some?
  {
    var name := Show(c.mode.value);
    if name in c.buckets then c.buckets[name] else []
  }

  /** A setting value as written: list items joined by spaces, anything else shown. */
  function Words(v: Value): string
  {
    if v.List? then Join(v.items, " ") else Show(v)
  }

  /** One setting line, with its leading tab and its CRLF. */
  function SettingLine(key: string, v: Value): string
  {
    "\t" + key + " " + Words(v) + CRLF
  }

  /** The `iface <device> inet <mode>` line with its CRLF. */
  function IfaceLine(c: IfaceConfig): string
    requires c.device.Some? && c.mode.Some?
  {
    "iface " + Show(c.device.value) + " inet " + Show(c.mode.value) + CRLF
  }

  // ---------------------------------------------------------------------
  // The serialiser as the code runs it: text appended to `body`, first error wins

  /** The settings loop (lib/networking.js:221-230) appending to `acc`. */
  function SettingsText(acc: string, settings: Settings): Result<string, SaveError>
    decreases |settings|
  {
    if |settings| == 0 then Ok(acc)
    else
      var (key, value) := settings[0];
      if Falsy(value) then Err(UndefinedValue(key, Show(value)))
      else SettingsText(acc + SettingLine(key, value), settings[1..])
  }

  /** The callback for one iface (lib/networking.js:199-232) appending to `acc`. */
  function IfaceChunk(acc: string, c: IfaceConfig): Result<string, SaveError>
  {
    if c.device.None? then Err(MissingProperty("device"))
    else if c.mode.None? then Err(MissingProperty("mode"))
    else SettingsText(acc + CRLF + IfaceLine(c), Bucket(c))
  }

  /** The iface loop appending to `acc`. */
  function IfacesText(acc: string, cs: seq<IfaceConfig>): Result<string, SaveError>
    decreases |cs|
  {
    if |cs| == 0 then Ok(acc)
    else
      match IfaceChunk(acc, cs[0])
      case Err(e) => Err(e)
      case Ok(next) => IfacesText(next, cs[1..])
  }

  /** The output for coerced fields. */
  function Rendered(auto: seq<string>, cs: seq<IfaceConfig>): Result<string, SaveError>
  {
    match IfacesText("", cs)
    case Err(e) => Err(e)
    case Ok(body) => Ok(Join([Header, "auto " + Join(auto, " "), body], CRLF))
  }

  /** What `save` resolves with (the text handed to the writer) or rejects with. */
  function Saved(auto: AutoField, iface: IfaceField): Result<string, SaveError>
  {
    match CoerceIface(iface)
    case None => Err(MissingIface)
    case Some(cs) => Rendered(CoerceAuto(auto), cs)
  }

  // ---------------------------------------------------------------------
  // The layout, defined independently of the loops

  /** No setting value is falsy. */
  predicate AllTruthy(settings: Settings)
  {
    forall i :: 0 <= i < |settings| ==> !Falsy(settings[i].1)
  }

  /** The iface object passes every check of `save`. */
  predicate Complete(c: IfaceConfig)
  {
    c.device.Some? && c.mode.Some? && AllTruthy(Bucket(c))
  }

  /** One line per setting, in key order. */
  function SettingsBody(settings: Settings): string
    decreases |settings|
  {
    if |settings| == 0 then ""
    else SettingLine(settings[0].0, settings[0].1) + SettingsBody(settings[1..])
  }

  /** One iface's part of the file: a blank line, the iface line, the settings lines. */
  function Block(c: IfaceConfig): string
    requires c.device.Some? && c.mode.Some?
  {
    CRLF + IfaceLine(c) + SettingsBody(Bucket(c))
  }

  /** All iface blocks in order. */
  function BlocksText(cs: seq<IfaceConfig>): string
    requires forall k :: 0 <= k < |cs| ==> cs[k].device.Some? && cs[k].mode.Some?
    decreases |cs|
  {
    if |cs| == 0 then "" else Block(cs[0]) + BlocksText(cs[1..])
  }

  /** The configuration record `save` receives and coerces in place. */
  class Config {
    var auto: AutoField
    var iface: IfaceField

    constructor (auto: AutoField, iface: IfaceField)
      ensures this.auto == auto && this.iface == iface
    {
      this.auto := auto;
      this.iface := iface;
    }
  }

  /**
   * lib/networking.js:170-253 without the write: the coerced fields are
   * stored back into `config` (the auto list even when the iface is missing),
   * and the result is the text handed to the writer or the rejection.
   */
  method Save(config: Config) returns (r: Result<string, SaveError>)
    modifies config
    ensures config.auto == AutoArray(CoerceAuto(old(config.auto)))
    ensures config.iface == match CoerceIface(old(config.iface))
      case None => old(config.iface)
      case Some(cs) => IfaceArray(cs)
    ensures r == Saved(old(config.auto), old(config.iface))
  {
    if AutoFalsy(config.auto) {
      config.auto := AutoArray(["lo"]);
    } else if config.auto.AutoScalar? {
      config.auto := AutoArray([config.auto.name]);
    }
    if config.iface.IfaceMissing? {
      assert Saved(old(config.auto), old(config.iface)) == Err(MissingIface);
      return Err(MissingIface);
    } else if config.iface.IfaceSingle? {
      config.iface := IfaceArray([config.iface.config]);
    }

    var output := [Header];
    output := output + ["auto " + Join(config.auto.names, " ")];

    var ifaces := config.iface.configs;
    assert CoerceIface(old(config.iface)) == Some(ifaces);
    assert config.auto.names == CoerceAuto(old(config.auto));
    var body := RenderIfaces(ifaces);
    if body.Err? {
      return Err(body.error);
    }
    output := output + [body.value];
    assert output == [Header, "auto " + Join(CoerceAuto(old(config.auto)), " "), body.value];
    r := Ok(Join(output, CRLF));
  }

  /** The `forEach` over the ifaces (lib/networking.js:198-233): the first throw stops it. */
  method RenderIfaces(ifaces: seq<IfaceConfig>) returns (r: Result<string, SaveError>)
    ensures r == IfacesText("", ifaces)
  {
    var body := "";
    var k := 0;
    while k < |ifaces|
      invariant 0 <= k <= |ifaces|
      invariant IfacesText("", ifaces) == IfacesText(body, ifaces[k..])
    {
      assert ifaces[k..][0] == ifaces[k] && ifaces[k..][1..] == ifaces[k + 1..];
      var next := RenderIface(body, ifaces[k]);
      if next.Err? {
        return Err(next.error);
      }
      body := next.value;
      k := k + 1;
    }
    assert ifaces[k..] == [];
    r := Ok(body);
  }

  /** The callback for one iface (lib/networking.js:199-232), appending to `acc`. */
  method RenderIface(acc: string, c: IfaceConfig) returns (r: Result<string, SaveError>)
    ensures r == IfaceChunk(acc, c)
  {
    var chunk := acc + CRLF;
    var j := 0;
    while j < |Required|
      invariant 0 <= j <= |Required|
      invariant forall j' :: 0 <= j' < j ==> HasProperty(c, Required[j'])
    {
      if !HasProperty(c, Required[j]) {
        assert j == 1 ==> HasProperty(c, Required[0]);
        return Err(MissingProperty(Required[j]));
      }
      j := j + 1;
    }
    assert HasProperty(c, Required[0]) && HasProperty(c, Required[1]);

    var line := "iface " + Show(c.device.value) + " inet " + Show(c.mode.value) + CRLF;
    assert line == IfaceLine(c);
    chunk := chunk + line;
    var name := Show(c.mode.value);
    if name in c.buckets {
      var settings := c.buckets[name];
      assert settings == Bucket(c) && settings[0..] == settings;
      var i := 0;
      while i < |settings|
        invariant 0 <= i <= |settings|
        invariant IfaceChunk(acc, c) == SettingsText(chunk, settings[i..])
      {
        var (index, value) := settings[i];
        assert settings[i..][0] == (index, value) && settings[i..][1..] == settings[i + 1..];
        if Falsy(value) {
          return Err(UndefinedValue(index, Show(value)));
        }
        var setting;
        if value.List? {
          setting := "\t" + index + " " + Join(value.items, " ") + CRLF;
        } else {
          setting := "\t" + index + " " + Show(value) + CRLF;
        }
        assert setting == SettingLine(index, value);
        chunk := chunk + setting;
        i := i + 1;
      }
      assert settings[i..] == [];
    }
    r := Ok(chunk);
  }

  // ---------------------------------------------------------------------
  // Lemmas

  /** The settings loop succeeds iff no value is falsy, and then appends one line per setting. */
  lemma {:induction false} SettingsTextOk(acc: string, settings: Settings)
    ensures SettingsText(acc, settings).Ok? <==> AllTruthy(settings)
    ensures AllTruthy(settings) ==> SettingsText(acc, settings) == Ok(acc + SettingsBody(settings))
    decreases |settings|
  {
    if |settings| > 0 {
      var line := SettingLine(settings[0].0, settings[0].1);
      var rest := settings[1..];
      AllTruthyCons(settings);
      if !Falsy(settings[0].1) {
        SettingsTextOk(acc + line, rest);
        assert SettingsText(acc, settings) == SettingsText(acc + line, rest);
        assert SettingsBody(settings) == line + SettingsBody(rest);
        assert acc + line + SettingsBody(rest) == acc + SettingsBody(settings);
      }
    } else {
      assert acc + SettingsBody(settings) == acc;
    }
  }

  /** All values are truthy iff the first is and all the others are. */
  lemma AllTruthyCons(settings: Settings)
    requires |settings| > 0
    ensures AllTruthy(settings) <==> !Falsy(settings[0].1) && AllTruthy(settings[1..])
  {
    if !Falsy(settings[0].1) && AllTruthy(settings[1..]) {
      forall i | 0 <= i < |settings| ensures !Falsy(settings[i].1) {
        if i > 0 {
          assert settings[i] == settings[1..][i - 1];
        }
      }
    }
  }

  /** The settings loop rejects at the first falsy value, naming its key and its shown value. */
  lemma {:induction false} SettingsTextFails(acc: string, settings: Settings, i: nat)
    requires i < |settings| && Falsy(settings[i].1)
    requires forall j :: 0 <= j < i ==> !Falsy(settings[j].1)
    ensures SettingsText(acc, settings) == Err(UndefinedValue(settings[i].0, Show(settings[i].1)))
    decreases i
  {
    if i > 0 {
      var (key, value) := settings[0];
      var rest := settings[1..];
      assert rest[i - 1] == settings[i];
      assert forall j :: 0 <= j < i - 1 ==> rest[j] == settings[j + 1];
      SettingsTextFails(acc + SettingLine(key, value), rest, i - 1);
    }
  }

  /** A rejection of the settings loop does not depend on the text before it. */
  lemma {:induction false} SettingsTextErr(a: string, b: string, settings: Settings)
    requires SettingsText(a, settings).Err?
    ensures SettingsText(b, settings) == SettingsText(a, settings)
    decreases |settings|
  {
    if |settings| > 0 && !Falsy(settings[0].1) {
      SettingsTextErr(a + SettingLine(settings[0].0, settings[0].1),
        b + SettingLine(settings[0].0, settings[0].1), settings[1..]);
    }
  }

  /** The check of one iface fails exactly when it is incomplete, whatever precedes it. */
  lemma IfaceChunkOk(acc: string, c: IfaceConfig)
    ensures IfaceChunk(acc, c).Ok? <==> Complete(c)
    ensures Complete(c) ==> IfaceChunk(acc, c) == Ok(acc + Block(c))
    ensures !Complete(c) ==> IfaceChunk(acc, c) == IfaceChunk("", c)
  {
    if c.device.Some? && c.mode.Some? {
      SettingsTextOk(acc + CRLF + IfaceLine(c), Bucket(c));
      assert acc + CRLF + IfaceLine(c) + SettingsBody(Bucket(c)) == acc + Block(c);
      if !Complete(c) {
        SettingsTextErr(acc + CRLF + IfaceLine(c), "" + CRLF + IfaceLine(c), Bucket(c));
      }
    }
  }

  /** Every iface passes the checks. */
  predicate AllComplete(cs: seq<IfaceConfig>)
  {
    forall k :: 0 <= k < |cs| ==> Complete(cs[k])
  }

  /** All ifaces are complete iff the first is and all the others are. */
  lemma AllCompleteCons(cs: seq<IfaceConfig>)
    requires |cs| > 0
    ensures AllComplete(cs) <==> Complete(cs[0]) && AllComplete(cs[1..])
  {
    if Complete(cs[0]) && AllComplete(cs[1..]) {
      forall k | 0 <= k < |cs| ensures Complete(cs[k]) {
        if k > 0 {
          assert cs[k] == cs[1..][k - 1];
        }
      }
    }
  }

  /** The iface loop succeeds iff every iface is complete, and then appends their blocks in order. */
  lemma {:induction false} IfacesTextOk(acc: string, cs: seq<IfaceConfig>)
    ensures IfacesText(acc, cs).Ok? <==> AllComplete(cs)
    ensures AllComplete(cs) ==> IfacesText(acc, cs) == Ok(acc + BlocksText(cs))
    decreases |cs|
  {
    if |cs| > 0 {
      AllCompleteCons(cs);
      IfaceChunkOk(acc, cs[0]);
      if Complete(cs[0]) {
        IfacesTextStep(acc, cs);
      }
    } else {
      assert acc + BlocksText(cs) == acc;
    }
  }

  /** The inductive step of IfacesTextOk past a complete first iface. */
  lemma {:induction false} IfacesTextStep(acc: string, cs: seq<IfaceConfig>)
    requires |cs| > 0 && Complete(cs[0])
    ensures IfacesText(acc, cs).Ok? <==> AllComplete(cs)
    ensures AllComplete(cs) ==> IfacesText(acc, cs) == Ok(acc + BlocksText(cs))
    decreases |cs|, 0
  {
    var rest := cs[1..];
    var next := acc + Block(cs[0]);
    IfaceChunkOk(acc, cs[0]);
    AllCompleteCons(cs);
    IfacesTextOk(next, rest);
    assert IfacesText(acc, cs) == IfacesText(next, rest);
    if AllComplete(cs) {
      assert BlocksText(cs) == Block(cs[0]) + BlocksText(rest);
      assert next + BlocksText(rest) == acc + BlocksText(cs);
    }
  }

  /** The iface loop rejects with the error of the first incomplete iface. */
  lemma {:induction false} IfacesTextFails(acc: string, cs: seq<IfaceConfig>, i: nat)
    requires i < |cs| && !Complete(cs[i])
    requires forall j :: 0 <= j < i ==> Complete(cs[j])
    ensures IfacesText(acc, cs) == IfaceChunk("", cs[i])
    decreases i
  {
    IfaceChunkOk(acc, cs[0]);
    if i > 0 {
      var rest := cs[1..];
      assert rest[i - 1] == cs[i];
      assert forall j :: 0 <= j < i - 1 ==> rest[j] == cs[j + 1];
      IfacesTextFails(acc + Block(cs[0]), rest, i - 1);
    }
  }

  /** The loops never report a missing iface list: only the coercion does. */
  lemma {:induction false} IfacesTextNotMissing(acc: string, cs: seq<IfaceConfig>)
    ensures IfacesText(acc, cs) != Err(MissingIface)
    decreases |cs|
  {
    if |cs| > 0 {
      var chunk := IfaceChunk(acc, cs[0]);
      if chunk.Ok? {
        IfacesTextNotMissing(chunk.value, cs[1..]);
      } else if cs[0].device.Some? && cs[0].mode.Some? {
        var b := Bucket(cs[0]);
        SettingsTextOk(acc + CRLF + IfaceLine(cs[0]), b);
        var i := FirstFalsy(b);
        SettingsTextFails(acc + CRLF + IfaceLine(cs[0]), b, i);
      }
    }
  }

  /** The position of the first falsy value of settings that are not all truthy. */
  function FirstFalsy(settings: Settings): (i: nat)
    requires !AllTruthy(settings)
    ensures i < |settings| && Falsy(settings[i].1)
    ensures forall j :: 0 <= j < i ==> !Falsy(settings[j].1)
    decreases |settings|
  {
    if Falsy(settings[0].1) then 0
    else
      assert !AllTruthy(settings[1..]) by {
        var k :| 0 <= k < |settings| && Falsy(settings[k].1);
        assert settings[1..][k - 1] == settings[k];
      }
      var i := FirstFalsy(settings[1..]);
      assert settings[1..][i] == settings[i + 1];
      assert forall j :: 1 <= j <= i ==> settings[j] == settings[1..][j - 1];
      i + 1
  }

  /** `save` rejects with the missing-iface error exactly when `config.iface` is missing. */
  lemma SaveMissingIface(auto: AutoField, iface: IfaceField)
    ensures Saved(auto, iface) == Err(MissingIface) <==> iface.IfaceMissing?
  {
    if !iface.IfaceMissing? {
      IfacesTextNotMissing("", CoerceIface(iface).value);
    }
  }

  /**
   * `save` resolves exactly when the iface list is present and every iface is
   * complete, and the text is then the header line, the `auto` line and the
   * iface blocks, each block opening with a blank line.
   */
  lemma SaveAccepts(auto: AutoField, iface: IfaceField)
    ensures Saved(auto, iface).Ok? <==>
      CoerceIface(iface).Some? && AllComplete(CoerceIface(iface).value)
    ensures Saved(auto, iface).Ok? ==>
      Saved(auto, iface).value ==
        Header + CRLF + ("auto " + Join(CoerceAuto(auto), " ")) + CRLF + BlocksText(CoerceIface(iface).value)
  {
    if iface != IfaceMissing {
      var cs := CoerceIface(iface).value;
      IfacesTextOk("", cs);
      if AllComplete(cs) {
        var body := BlocksText(cs);
        var a := "auto " + Join(CoerceAuto(auto), " ");
        assert "" + body == body;
        assert IfacesText("", cs) == Ok(body);
        assert Saved(auto, iface) == Ok(Join([Header, a, body], CRLF));
        HeaderLayout(a, body);
      }
    }
  }

  /** The three-part join of the output. */
  lemma HeaderLayout(a: string, body: string)
    ensures Join([Header, a, body], CRLF) == Header + CRLF + a + CRLF + body
  {
    assert [Header, a, body][1..] == [a, body];
    assert [a, body][1..] == [body];
    assert Join([a, body], CRLF) == a + CRLF + body;
    assert Join([Header, a, body], CRLF) == Header + CRLF + (a + CRLF + body);
  }

  /** With no (or a falsy) `auto`, the saved text's second line is `auto lo`. */
  lemma SaveDefaultAuto(auto: AutoField, iface: IfaceField)
    requires AutoFalsy(auto) && Saved(auto, iface).Ok?
    ensures StartsWith(Saved(auto, iface).value, Header + CRLF + "auto lo" + CRLF)
  {
    SaveAccepts(auto, iface);
    assert Join(["lo"], " ") == "lo";
  }

  /**
   * Each iface is checked in order: at the first incomplete one, a missing
   * `device` key and then a missing `mode` key reject with that property's name.
   */
  lemma SaveMissingProperty(auto: AutoField, iface: IfaceField, i: nat)
    requires CoerceIface(iface).Some? && i < |CoerceIface(iface).value|
    requires forall j :: 0 <= j < i ==> Complete(CoerceIface(iface).value[j])
    requires !HasProperty(CoerceIface(iface).value[i], "device")
      || !HasProperty(CoerceIface(iface).value[i], "mode")
    ensures Saved(auto, iface) ==
      Err(MissingProperty(if CoerceIface(iface).value[i].device.None? then "device" else "mode"))
  {
    IfacesTextFails("", CoerceIface(iface).value, i);
  }

  /**
   * At the first incomplete iface, when both keys are present, `save` rejects
   * at that iface's first falsy setting, naming its key and its shown value.
   */
  lemma SaveUndefinedValue(auto: AutoField, iface: IfaceField, i: nat, k: nat)
    requires CoerceIface(iface).Some? && i < |CoerceIface(iface).value|
    requires forall j :: 0 <= j < i ==> Complete(CoerceIface(iface).value[j])
    requires var c := CoerceIface(iface).value[i];
      && c.device.Some? && c.mode.Some? && k < |Bucket(c)| && Falsy(Bucket(c)[k].1)
      && forall j :: 0 <= j < k ==> !Falsy(Bucket(c)[j].1)
    ensures var b := Bucket(CoerceIface(iface).value[i]);
      Saved(auto, iface) == Err(UndefinedValue(b[k].0, Show(b[k].1)))
  {
    var c := CoerceIface(iface).value[i];
    IfacesTextFails("", CoerceIface(iface).value, i);
    SettingsTextFails("" + CRLF + IfaceLine(c), Bucket(c), k);
  }
}
