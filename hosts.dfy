/**
 * The `/etc/hosts` generator of lib/hosts.js. `hosts(data)` builds the file
 * text from a fixed header and one line per address, stores it in the
 * module-level field `hosts.hostsConfig` and returns the module; `hosts.save`
 * hands the stored text to the writer. The host name, which the source reads
 * from `/etc/hostname`, is a parameter here, and the write itself is not
 * modelled: the text handed to the writer is part of the result.
 */
module HostsFile {
  import opened Wrappers
  import opened Strings

  /** The address-to-host object, its keys in enumeration order. */
  type HostMap = seq<(string, string)>

  /** The nine lines every hosts file starts with; the second names this host. */
  function FixedLines(hostName: string): seq<string>
  {
    [ "127.0.0.1 localhost",
      "127.0.1.1 " + hostName,
      "",
      "# The following lines are desirable for IPv6 capable hosts",
      "::1       ip6-localhost ip6-loopback",
      "fe00::0   ip6-localnet",
      "ff00::0   ip6-mcastprefix",
      "ff02::1   ip6-allnodes",
      "ff02::2:  ip6-allrouters" ]
  }

  /** The `<ip> <host>` line of one entry. */
  function EntryLine(entry: (string, string)): string
  {
    entry.0 + " " + entry.1
  }

  /** All lines of the file, in order. */
  function HostsLines(data: HostMap, hostName: string): seq<string>
  {
    FixedLines(hostName) + seq(|data|, k requires 0 <= k < |data| => EntryLine(data[k]))
  }

  /** The generated text: the lines joined by CRLF. */
  function HostsText(data: HostMap, hostName: string): string
  {
    Join(HostsLines(data, hostName), CRLF)
  }

  /** Why `hosts.save` rejects. */
  datatype HostsError = UndefinedHostsConfig

  /** The rejection's message. */
  function Message(e: HostsError): string
  {
    "Undefined hostsConfig!"
  }

  /** JavaScript falsiness of the cached text: unset or empty. */
  predicate Falsy(config: Option<string>)
  {
    config.None? || config == Some("")
  }

  /**
   * One run of `hosts.save`: how its promise settles (assuming the write
   * itself succeeds) and, when the writer is called, the content handed to
   * it (None standing for `undefined`).
   */
  datatype SaveRun = SaveRun(settled: Result<string, HostsError>, written: Option<Option<string>>)

  /** The module object `hosts` with its cache `hosts.hostsConfig`. */
  class Hosts {
    var hostsConfig: Option<string>

    /** The module as loaded: nothing cached. */
    constructor ()
      ensures hostsConfig == None
    {
      hostsConfig := None;
    }

    /** `hosts(data)` (lib/hosts.js:8-35): builds the text and overwrites the cache with it. */
    method Generate(data: HostMap, hostName: string)
      modifies this
      ensures hostsConfig == Some(HostsText(data, hostName))
    {
      var output: seq<string> := [];
      output := output + ["127.0.0.1 localhost"];
      output := output + ["127.0.1.1 " + hostName];
      output := output + [""];
      output := output + ["# The following lines are desirable for IPv6 capable hosts"];
      output := output + ["::1       ip6-localhost ip6-loopback"];
      output := output + ["fe00::0   ip6-localnet"];
      output := output + ["ff00::0   ip6-mcastprefix"];
      output := output + ["ff02::1   ip6-allnodes"];
      output := output + ["ff02::2:  ip6-allrouters"];

      var i := 0;
      while i < |data|
        invariant 0 <= i <= |data|
        invariant output == FixedLines(hostName) + seq(i, k requires 0 <= k < i => EntryLine(data[k]))
      {
        var (ip, host) := data[i];
        output := output + [ip + " " + host];
        i := i + 1;
      }

      hostsConfig := Some(Join(output, CRLF));
    }

    /**
     * `hosts.save` with the rejection returning at once: an unset or empty
     * cache rejects and nothing is written; otherwise the cached text is
     * written and is what the promise resolves with.
     */
    method Save() returns (run: SaveRun)
      ensures Falsy(hostsConfig) ==> run == SaveRun(Err(UndefinedHostsConfig), None)
      ensures !Falsy(hostsConfig) ==> run == SaveRun(Ok(hostsConfig.value), Some(hostsConfig))
    {
      if Falsy(hostsConfig) {
        return SaveRun(Err(UndefinedHostsConfig), None);
      }
      run := SaveRun(Ok(hostsConfig.value), Some(hostsConfig));
    }
  }

  /**
   * `hosts.save` as lib/hosts.js:37-51 writes it: the rejection does not
   * return, so the writer is called with the cached value even when it is
   * unset; the promise has already settled with the rejection by then.
   */
  function SaveAsWritten(hostsConfig: Option<string>): (run: SaveRun)
    ensures run.written == Some(hostsConfig)
  {
    if Falsy(hostsConfig) then SaveRun(Err(UndefinedHostsConfig), Some(hostsConfig))
    else SaveRun(Ok(hostsConfig.value), Some(hostsConfig))
  }

  // ---------------------------------------------------------------------
  // Lemmas

  /** Saving before any `hosts(...)` call rejects, yet the code as written still calls the writer. */
  lemma SaveAsWrittenWritesUndefined()
    ensures SaveAsWritten(None).settled == Err(UndefinedHostsConfig)
    ensures SaveAsWritten(None).written == Some(None)
  {
  }

  /** A generated text is never falsy, so saving right after `hosts(...)` resolves with it. */
  lemma GeneratedNotFalsy(data: HostMap, hostName: string)
    ensures !Falsy(Some(HostsText(data, hostName)))
    ensures StartsWith(HostsText(data, hostName), "127.0.0.1 localhost")
  {
    var lines := HostsLines(data, hostName);
    assert lines == [lines[0]] + lines[1..];
    JoinAppend([lines[0]], lines[1..], CRLF);
  }

  /**
   * The text begins with the three leading lines (the third one empty) and
   * the IPv6 comment, each ended by CRLF, whatever the host name holds.
   */
  lemma HostsPrefix(data: HostMap, hostName: string)
    ensures StartsWith(HostsText(data, hostName),
      "127.0.0.1 localhost" + CRLF + ("127.0.1.1 " + hostName) + CRLF + "" + CRLF
      + "# The following lines are desirable for IPv6 capable hosts" + CRLF)
  {
    var lines := HostsLines(data, hostName);
    assert lines == [lines[0], lines[1], lines[2], lines[3]] + lines[4..];
    JoinPrefix(lines[0], lines[1], lines[2], lines[3], lines[4..], CRLF);
  }

  /** Four lines, then at least one more, joined by `sep`: the four lines each ended by `sep` come first. */
  lemma JoinPrefix(a: string, b: string, c: string, d: string, rest: seq<string>, sep: string)
    requires |rest| > 0
    ensures StartsWith(Join([a, b, c, d] + rest, sep), a + sep + b + sep + c + sep + d + sep)
  {
    JoinAppend([a, b, c, d], rest, sep);
    JoinFour(a, b, c, d, sep);
    Prefix(a + sep + b + sep + c + sep + d + sep, Join(rest, sep));
  }

  /** Four lines joined by `sep`. */
  lemma JoinFour(a: string, b: string, c: string, d: string, sep: string)
    ensures Join([a, b, c, d], sep) == a + sep + b + sep + c + sep + d
  {
    assert [a, b, c, d][1..] == [b, c, d] && [b, c, d][1..] == [c, d] && [c, d][1..] == [d];
    assert Join([d], sep) == d;
    var j3 := Join([c, d], sep);
    assert j3 == c + sep + Join([d], sep);
    assert Join([b, c, d], sep) == b + sep + j3;
    Assoc(a + sep, b + sep, j3);
    Assoc(a + sep, b, sep);
    Assoc(a + sep + b + sep, c + sep, d);
    Assoc(a + sep + b + sep, c, sep);
  }

  /** A text starts with its first piece. */
  lemma Prefix(x: string, y: string)
    ensures StartsWith(x + y, x)
  {
    assert (x + y)[..|x|] == x;
  }

  /**
   * When no line holds a carriage return, splitting the text on CRLF gives
   * back exactly 9 + |data| lines: the fixed ones, then `<ip> <host>` per
   * entry in key order, the last line being non-empty, so there is no
   * trailing line terminator. A line feed inside a line, such as the one
   * `/etc/hostname` usually ends with, never forms a CRLF with the separator.
   */
  lemma HostsLayout(data: HostMap, hostName: string)
    requires '\r' !in hostName
    requires forall k :: 0 <= k < |data| ==> '\r' !in data[k].0 && '\r' !in data[k].1
    ensures var lines := SplitSep(HostsText(data, hostName), CRLF);
      && |lines| == 9 + |data|
      && lines[..9] == FixedLines(hostName)
      && (forall k :: 0 <= k < |data| ==> lines[9 + k] == data[k].0 + " " + data[k].1)
      && lines[|lines| - 1] != ""
  {
    var fixed := FixedLines(hostName);
    var lines := HostsLines(data, hostName);
    FixedLinesClean(hostName);
    forall j | 0 <= j < |lines| ensures '\r' !in lines[j] {
      if j < 9 {
        assert lines[j] == fixed[j];
      } else {
        var e := data[j - 9];
        assert lines[j] == e.0 + " " + e.1;
      }
    }
    assert CRLF[0] == '\r';
    SplitJoinHead(lines, CRLF);
    assert lines[..9] == FixedLines(hostName);
  }

  /** A host name read with its trailing line feed stays one line of the file. */
  lemma HostsLayoutTrailingFeed(data: HostMap)
    requires forall k :: 0 <= k < |data| ==> '\r' !in data[k].0 && '\r' !in data[k].1
    ensures var lines := SplitSep(HostsText(data, "myhost\n"), CRLF);
      |lines| == 9 + |data| && lines[1] == "127.0.1.1 myhost\n"
  {
    HostsLayout(data, "myhost\n");
    assert FixedLines("myhost\n")[1] == "127.0.1.1 myhost\n";
  }

  /** No fixed line holds a carriage return unless the host name does. */
  lemma FixedLinesClean(hostName: string)
    requires '\r' !in hostName
    ensures forall j :: 0 <= j < |FixedLines(hostName)| ==> '\r' !in FixedLines(hostName)[j]
  {
    var f := FixedLines(hostName);
    CommentClean();
    assert '\r' !in f[0] && '\r' !in f[1] && '\r' !in f[2] && '\r' !in f[3];
    assert '\r' !in f[4] && '\r' !in f[5];
    assert '\r' !in f[6] && '\r' !in f[7] && '\r' !in f[8];
  }

  /** The IPv6 comment line holds no carriage return. */
  lemma CommentClean()
    ensures '\r' !in "# The following lines are desirable for IPv6 capable hosts"
  {
    CommentPieces();
    PiecesClean();
  }

  /** The IPv6 comment line in four pieces. */
  lemma CommentPieces()
    ensures "# The following lines are desirable for IPv6 capable hosts"
      == "# The following " + "lines are " + "desirable for " + "IPv6 capable hosts"
  {
  }

  /** None of the four pieces holds a carriage return. */
  lemma PiecesClean()
    ensures '\r' !in "# The following " + "lines are " + "desirable for " + "IPv6 capable hosts"
  {
    assert '\r' !in "# The following " && '\r' !in "lines are ";
    assert '\r' !in "desirable for " && '\r' !in "IPv6 capable hosts";
  }
}
