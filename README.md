# setup: the interfaces file and the hosts file, modelled in Dafny

This project models the core of the Node.js package `setup`.

**lib/networking.js**
- `normalize` prepares the text of `/etc/network/interfaces`:
  - removes every tab;
  - splits the text on line feeds and drops the empty pieces;
  - trims each line;
  - puts a `#` sentinel line in front of every `iface` line whose predecessor does not start with `#`;
  - adds a final `#` line;
  - joins the lines with CRLF.
- `parse` decodes the normalized text into `{auto, ifaces}`:
  - the `auto` list comes from the first `^auto(.+)$` line;
  - one iface entry comes from each `^iface[\W\w]*?(?=#)` stanza, in file order. Each entry carries:
    - the classification flags (`wired`, `bluetooth`, `loopback`, `wireless`);
    - the `static`/`dhcp` settings.
- `save` serialises a configuration object:
  - it first coerces the object's `auto` and `iface` properties in place;
  - it rejects a missing iface, a missing required property, or a falsy setting value, in that order.

**lib/hosts.js**
- `hosts(data)` builds the `/etc/hosts` text and caches it in `hosts.hostsConfig`.
- `hosts.save` hands the cached text to the writer.

**Modules**
- `Strings`: the JavaScript string builtins the source relies on — `split` on a string and on `/\s/`, `trim`, `join`, `includes`, `startsWith`.
- `Settings`: a JavaScript object used as an insertion-ordered dictionary.
- `Normalization`, `Parse` and `Serialization`: the three functions of lib/networking.js.
  - Each loop of the source is a method.
  - Each method is proved equal to a specification function.
  - The lemmas state the properties of those functions.
- `Serialization.Config`: the configuration object that `save` updates in place.
- `HostsFile.Hosts`: the module object whose `hostsConfig` field `hosts(data)` overwrites.
- `RoundTrip` and `ParseSaved` prove that `parse` after `save` gives the configuration back. The text must first be normalized. Every name and value must survive the trip.

The two regular expressions of `parse` are modelled on text positions:
- `FindAuto` finds the first line start followed by `auto` and at least one more character on the line.
- `Blocks` takes every stretch from an `iface` at a line start up to the next `#`.

## Model

| member | source | states |
|---|---|---|
| Normalization.Normalize | lib/networking.js:22-46 | The loop's output is the normalized text: the emitted lines, including the sentinels, then a final `#`, joined by CRLF. |
| Normalization.NormAt | lib/networking.js:29-36 | Line i contributes its trimmed text. A `#` comes in front exactly when the trimmed line starts with `iface` and a non-empty raw predecessor does not start with `#`. |
| Normalization.NormAppend | lib/networking.js:28-37 | Normalizing two runs of lines is normalizing the first run, then the second run with the first run's last line as its predecessor. |
| Normalization.NormClean | lib/networking.js:24-30 | No emitted line holds a tab or a line feed, and every emitted line is trimmed. |
| Normalization.NormalizedShape | lib/networking.js:22-46 | The last line is `#`. No line holds a tab or a line feed. Every line is trimmed. Splitting the text on CRLF gives back exactly the emitted lines. |
| Normalization.IfaceLinesGuarded | lib/networking.js:33-35 | In the normalized lines, every `iface` line after the first line directly follows a line starting with `#`. |
| Parse.LineEnd | lib/networking.js:77 | The end of the `$` match lies at or after the start, and at the text's end or on a line terminator. |
| Parse.LineEndFirst | lib/networking.js:77 | No line terminator lies before that end, so `(.+)` captures the whole rest of the line. |
| Parse.FindAuto | lib/networking.js:77 | A found position lies at or after the start and matches `^auto(.+)$`. |
| Parse.FindAutoFirst | lib/networking.js:77-80 | The found position is the first match. When nothing is found, no position matches. |
| Parse.FindHash | lib/networking.js:93 | A found position holds `#`. |
| Parse.FindHashFirst | lib/networking.js:93 | The found `#` is the first one after the start. When nothing is found, the rest of the text holds no `#`. |
| Parse.BlocksMatch | lib/networking.js:93 | Every stanza the scan returns starts with `iface` and holds no `#`, because the lazy match stops at the first `#`. |
| Parse.Defaults | lib/networking.js:107-122 | An empty device or mode word counts as missing. `auto` holds iff the device is in the auto list. `wired`, `bluetooth`, `loopback` and `wireless` hold iff the device name includes `eth`, `bnep`, `lo` or `wlan`. Only `static` or `dhcp` get an empty settings object. `raw` is the stanza. |
| Parse.ParseBlock | lib/networking.js:94-137 | A stanza is rejected as an incorrect iface definition exactly when its first line has fewer than four words, and the error carries that line. A decoded stanza has settings under `static` or `dhcp` exactly when that is its mode, and keeps the stanza as `raw`. |
| Parse.ParseBlockOtherMode | lib/networking.js:124-132 | Setting lines under any mode other than `static` and `dhcp` are rejected, because the mode's property is not an object. |
| Parse.ApplyLinesLookup | lib/networking.js:125-132 | After the setting lines run, each key holds the value of the last line that sets it. A key that no line sets keeps its earlier value. |
| Parse.ParseBlockSettings | lib/networking.js:119-132 | A decoded stanza with setting lines has mode `static` or `dhcp`. That mode's settings map each key to the value its last line gives. |
| Parse.ParseBlocksAll | lib/networking.js:93-137 | The walk over the stanzas succeeds iff every stanza decodes. It then yields exactly one entry per stanza, in file order. |
| Parse.ParseBlocksFirstError | lib/networking.js:93-137 | When every stanza before stanza i decodes and stanza i does not, the walk rejects with stanza i's error. |
| Parse.ParseBlocksError | lib/networking.js:93-137 | The stanza walk never produces the missing-`auto` error. |
| Parse.ParseText | lib/networking.js:76-139 | `parse` rejects for a missing `auto` definition exactly when no line matches `^auto(.+)$`. |
| Parse.ParseEntry | lib/networking.js:94-137 | The callback for one stanza, with its settings loop, computes the stanza's decoded entry or its error. |
| Parse.ParseEntries | lib/networking.js:93-137 | The `forEach` over the stanzas computes the walk of all stanzas, starting from the empty list. |
| Parse.ParseNormalized | lib/networking.js:71-139 | Decoding normalized text computes the auto list and the entries, or the first error. |
| Parse.Parse | lib/networking.js:65-144 | `parse` on file content is `normalize` followed by decoding. |
| Settings.Put | lib/networking.js:131 | Assigning a new key appends it. Assigning an existing key keeps every key in place. |
| Settings.PutLookup | lib/networking.js:131 | After the assignment, the key reads the new value and every other key reads what it read before. |
| Settings.PutUnique | lib/networking.js:131 | An assignment keeps keys unique. |
| Serialization.Save | lib/networking.js:170-253 | `config.auto` is coerced in place: `['lo']` when falsy, wrapped in an array when not an array. `config.iface` is wrapped in an array when not an array. The result is the text `save` would write, or its rejection. |
| Serialization.RenderIfaces | lib/networking.js:197-233 | The `forEach` over the iface objects builds the stanzas' text, or stops at the first failing object. |
| Serialization.RenderIface | lib/networking.js:199-232 | The callback for one iface object checks `device` and then `mode`. It adds the iface line, then one tab-indented line per setting of the mode, or stops at the first falsy value. |
| Serialization.SettingsTextOk | lib/networking.js:216-230 | The settings loop succeeds iff no value is falsy. It then appends one `\t<key> <value>` line per setting, in key order. |
| Serialization.SettingsTextFails | lib/networking.js:221-224 | The loop rejects with the first falsy value's key, shown as `${value}`. |
| Serialization.IfaceChunkOk | lib/networking.js:199-232 | One iface object succeeds iff it has `device` and `mode` and its settings have no falsy value. It then contributes a CRLF, its iface line and its setting lines. |
| Serialization.IfacesTextOk | lib/networking.js:197-233 | All iface objects succeed iff each one does. The text is then their chunks, in order. |
| Serialization.IfacesTextFails | lib/networking.js:199-208 | The first failing iface object decides the error. |
| Serialization.SaveMissingIface | lib/networking.js:178-179 | `save` rejects with "missing iface" exactly when `config.iface` is missing. |
| Serialization.SaveAccepts | lib/networking.js:170-239 | `save` succeeds iff `iface` is present and every iface object is complete. The text is then the header, CRLF, `auto ` with the joined list, CRLF, then the stanzas. |
| Serialization.SaveDefaultAuto | lib/networking.js:173-192 | A falsy `auto` saves as the line `auto lo` right after the header. |
| Serialization.SaveMissingProperty | lib/networking.js:203-208 | The first iface object that lacks `device`, or failing that `mode`, rejects with that property's name. |
| Serialization.SaveUndefinedValue | lib/networking.js:221-224 | The first falsy setting value of the first failing iface object rejects with its key and shown value. |
| HostsFile.Hosts.Generate | lib/hosts.js:8-35 | `hosts(data)` overwrites the cache with the nine fixed lines, then `<ip> <host>` per entry in key order, joined by CRLF. |
| HostsFile.Hosts.Save | lib/hosts.js:37-51 | An unset or empty cache rejects with "Undefined hostsConfig!" and writes nothing. Otherwise the cached text is written and is the resolved value. |
| HostsFile.SaveAsWritten | lib/hosts.js:37-51 | As the code is written, the writer is called with the cached value in every case. |
| HostsFile.SaveAsWrittenWritesUndefined | lib/hosts.js:39-43 | Saving before any `hosts(...)` call rejects, and the writer is still called with `undefined`. |
| HostsFile.GeneratedNotFalsy | lib/hosts.js:31-41 | A generated text starts with `127.0.0.1 localhost`, so it is never falsy and a following save does not reject. |
| HostsFile.HostsPrefix | lib/hosts.js:13-18 | The text begins with the localhost line, the `127.0.1.1 <hostname>` line, an empty line and the IPv6 comment, each ended by CRLF. |
| HostsFile.HostsLayout | lib/hosts.js:13-31 | When no line holds a carriage return, the text splits on CRLF into exactly 9 + n lines: the fixed lines, then one `<ip> <host>` per entry in order. The last line is non-empty. A line feed inside a line, such as the one `/etc/hostname` usually ends with, does not break the layout. |
| HostsFile.HostsLayoutTrailingFeed | lib/hosts.js:10-14 | A host name read with its trailing line feed, `myhost\n`, leaves the file at 9 + n lines, its second line being `127.0.1.1 myhost\n`. |
| RoundTrip.NormalizedSaved | lib/networking.js:22-46 | Normalizing a saved text keeps the header and the `auto` line. Each stanza then follows an empty line and a `#` sentinel line. A final `#` line ends the text. |
| ParseSaved.AutoGroupSaved | lib/networking.js:77-87 | In normalized saved text, `^auto(.+)$` captures the rest of the `auto` line. |
| ParseSaved.BlocksSaved | lib/networking.js:93 | In normalized saved text, the stanza scan returns exactly one block per saved iface object. |
| ParseSaved.ParseBlocksSaved | lib/networking.js:93-137 | Each of those blocks decodes back to its iface object's device, mode, `auto` flag and settings. |
| ParseSaved.SaveThenParse | lib/networking.js:65-253 | Take a configuration with a non-empty auto list and at least one iface object, whose names and values survive the trip. Saving it and parsing the saved text gives back the coerced auto list and one entry per iface object, in order, with the same device, mode, `auto` flag and settings. |
| ParseSaved.SaveEmptyThenParse | lib/networking.js:65-253 | An empty iface array is truthy, so `save` accepts it and writes only the header and the `auto` line (lines 178-192). `parse` of that text finds no stanza and fails on `null.forEach` (line 93). |

## Left out

- File input and output are not modelled:
  - `parse` reads its file with `fs.readFileSync`, and the model takes the content as its parameter.
  - `save` writes with `fs.writeFile`, and the model returns the text it would write.
  - `hosts(data)` reads `/etc/hostname`, and the model takes the host name as a parameter.
  - A failed write (the writer's error callback) is not modelled.
- Promises and `async` are not modelled. A resolved promise is `Ok`, a rejected one is `Err`.
- `restart` (lib/networking.js:255-274) runs a shell command. It is not modelled.
- lib/datetime.js and lib/hostname.js are not part of this model.
- Regular expressions are not modelled in general. Only the two patterns `parse` uses and the class `\s` are modelled.
- Parse.ParseBlock: the two JavaScript TypeErrors are both reported as `NotAnObject`:
  - `null.forEach`, when no stanza matches;
  - a setting assigned under a mode whose property is a string, a boolean or missing.
- Parse.ParseBlock: a mode that names a property inherited from `Object.prototype` (`constructor`, `toString`, `__proto__`) is rejected here. In JavaScript, such a mode reaches an object shared by all objects and the assignment succeeds silently.
- Parse.Defaults: when the device word is empty, JavaScript sets `auto` to `null`. The model sets it to `false`, which is equally falsy.
- Settings.Put: JavaScript enumerates integer-like keys first, in numeric order. The model keeps every key in insertion order.
- Settings.Put: assigning the key `__proto__` (a setting line starting with `__proto__`) makes no own key in JavaScript. The inherited setter ignores a string value and replaces the object's prototype with a word list. The model appends `__proto__` as an ordinary key.
- Serialization.Save: these values are not modelled:
  - non-string scalars (numbers, booleans, objects) as `auto`, `device`, `mode` or a setting value;
  - a settings property that is not an object.
  Falsiness is modelled for the empty string, `null` and `undefined`.
- Serialization.Save: an iface entry that is not an object cannot be expressed. In the source, a string entry such as `iface: 'eth0'` rejects with "Missing property! Iface property 'device' is required!" (lib/networking.js:203-207), and a `null` entry throws a TypeError.
- HostsFile.Hosts.Generate: `data` is always an object here. In the source, `hosts(null)` or `hosts()` throws at `Object.keys` (lib/hosts.js:25) and leaves the earlier cache in place, while Generate always overwrites the cache.
- HostsFile.Hosts.Generate: the host name is used verbatim, including the trailing line feed that `/etc/hostname` usually ends with, as the source does.
- ParseSaved.SaveThenParse: the round trip needs a non-empty auto list. `save` writes `auto ` for an empty list, normalization trims that to `auto`, and `^auto(.+)$` then fails to match.
- ParseSaved.SaveThenParse: the round trip needs at least one iface object. `save` accepts an empty iface array, but `parse` of its text fails; ParseSaved.SaveEmptyThenParse states that failure.
- ParseSaved.SaveThenParse: the round trip also needs values that survive the trip:
  - every word is non-empty and holds no whitespace and no `#`;
  - list values have at least two items, because one item reads back as a single value;
  - only `static` and `dhcp` carry settings.

## Code over tests

Where test/networking.spec.js expects something the code does not do, the model follows the code:
- The tests give the configuration's key as `ifaces` and expect the message "missing ifaces!". The code reads `iface` and says "missing iface!" (lib/networking.js:178-179).
- The tests expect `raw` and the saved text to end lines with `\n`. The code works on CRLF-joined text (lib/networking.js:43, 239).

## Findings

| source | as written | input that shows it | evidently intended | confidence | as-written member | corrected member |
|---|---|---|---|---|---|---|
| lib/hosts.js:39-43 | After `reject(...)` for an unset cache there is no `return`, so `fs.writeFile` is still called with `hosts.hostsConfig` | `hosts.save()` before any `hosts(data)` call: the cache is `undefined`, the promise rejects, and the writer is still handed `undefined` | reject and write nothing | high (not executed) | HostsFile.SaveAsWritten, with HostsFile.SaveAsWrittenWritesUndefined | HostsFile.Hosts.Save |
