/**
 * Round trip: the text `save` produces parses back, through `normalize` and
 * `parse`, into the same `auto` list and, iface by iface, the same device,
 * mode and settings, as long as every name survives the trip (non-empty, no
 * `\s`, no `#`), no setting key starts with `iface`, every list has at least
 * two items (one item reads back as a single value) and only the `static`
 * and `dhcp` modes carry settings.
 */
module RoundTrip {
  import opened Wrappers
  import opened Strings
  import opened Settings
  import opened Normalization
  import opened Parse
  import opened Serialization
  import opened Scanning

  // ---------------------------------------------------------------------
  // What survives the trip

  /** A name, mode, key or value word that reads back unchanged. */
  predicate Word(w: string)
  {
    w != "" && NoSpace(w) && '#' !in w
  }

  /** Every item is such a word. */
  predicate AllWords(ws: seq<string>)
  {
    forall k :: 0 <= k < |ws| ==> Word(ws[k])
  }

  /** A setting value that reads back unchanged. */
  predicate PortableValue(v: Value)
  {
    || (v.Scalar? && Word(v.text))
    || (v.List? && |v.items| >= 2 && AllWords(v.items))
  }

  /** Settings that read back unchanged, in order. */
  predicate PortableSettings(s: Settings)
  {
    && UniqueKeys(s)
    && forall i :: 0 <= i < |s| ==>
      Word(s[i].0) && !StartsWith(s[i].0, "iface") && PortableValue(s[i].1)
  }

  /** An iface object whose stanza reads back unchanged. */
  predicate PortableIface(c: IfaceConfig)
  {
    && c.device.Some? && c.device.value.Scalar? && Word(c.device.value.text)
    && c.mode.Some? && c.mode.value.Scalar? && Word(c.mode.value.text)
    && PortableSettings(Bucket(c))
    && (|Bucket(c)| > 0 ==> c.mode.value.text == "static" || c.mode.value.text == "dhcp")
  }

  /** The settings the parser attaches to an iface, the empty object when it has none. */
  function ModeSettings(iface: Iface): Settings
  {
    if iface.staticSettings.Some? then iface.staticSettings.value
    else if iface.dhcpSettings.Some? then iface.dhcpSettings.value
    else []
  }

  /** A parsed iface gives back the device, the mode and the settings of the saved one. */
  predicate Restored(iface: Iface, c: IfaceConfig, autoList: seq<string>)
    requires c.device.Some? && c.mode.Some?
  {
    && iface.device == Some(Show(c.device.value))
    && iface.mode == Some(Show(c.mode.value))
    && iface.auto == (Show(c.device.value) in autoList)
    && ModeSettings(iface) == Bucket(c)
  }

  // ---------------------------------------------------------------------
  // The saved text as lines

  /** No line terminator, tab or `#`. */
  predicate Clean(s: string)
  {
    '\n' !in s && '\r' !in s && '\U{2028}' !in s && '\U{2029}' !in s && '\t' !in s && '#' !in s
  }

  /** The iface line without its tab and CRLF. */
  function IfaceRow(c: IfaceConfig): string
    requires c.device.Some? && c.mode.Some?
  {
    "iface " + Show(c.device.value) + " inet " + Show(c.mode.value)
  }

  /** A setting line without its tab and CRLF. */
  function SettingRow(key: string, v: Value): string
  {
    key + " " + Words(v)
  }

  /** The setting lines, in key order. */
  function SettingRows(s: Settings): seq<string>
    decreases |s|
  {
    if |s| == 0 then [] else [SettingRow(s[0].0, s[0].1)] + SettingRows(s[1..])
  }

  /** One iface's lines: the iface line, then its settings. */
  function Stanza(c: IfaceConfig): seq<string>
    requires c.device.Some? && c.mode.Some?
  {
    [IfaceRow(c)] + SettingRows(Bucket(c))
  }

  /** Each iface's lines after a blank line. */
  function StanzaRows(cs: seq<IfaceConfig>): seq<string>
    requires forall k :: 0 <= k < |cs| ==> cs[k].device.Some? && cs[k].mode.Some?
    decreases |cs|
  {
    if |cs| == 0 then [] else [""] + Stanza(cs[0]) + StanzaRows(cs[1..])
  }

  /** The `auto` line. */
  function AutoRow(autoList: seq<string>): string
  {
    "auto " + Join(autoList, " ")
  }

  /** Each line followed by CRLF. */
  function Terminated(lines: seq<string>): string
    decreases |lines|
  {
    if |lines| == 0 then "" else lines[0] + CRLF + Terminated(lines[1..])
  }

  // ---------------------------------------------------------------------
  // Characters

  /** A word holds no terminator, tab or `#`. */
  lemma WordClean(w: string)
    requires Word(w)
    ensures Clean(w)
  {
    assert forall x :: x in w ==> !IsSpace(x);
  }

  /** Joining clean pieces with a clean separator is clean. */
  lemma {:induction false} JoinClean(ws: seq<string>, sep: string)
    requires Clean(sep) && forall k :: 0 <= k < |ws| ==> Clean(ws[k])
    ensures Clean(Join(ws, sep))
    decreases |ws|
  {
    if |ws| > 1 {
      JoinClean(ws[1..], sep);
    }
  }

  /** Joined words hold no terminator, tab or `#`. */
  lemma WordsClean(ws: seq<string>)
    requires AllWords(ws)
    ensures Clean(Join(ws, " "))
  {
    forall k | 0 <= k < |ws| ensures Clean(ws[k]) {
      WordClean(ws[k]);
    }
    JoinClean(ws, " ");
  }

  /** A clean string has no line terminator. */
  lemma CleanNoTerminator(s: string)
    requires Clean(s)
    ensures NoTerminator(s)
  {
    forall i | 0 <= i < |s| ensures !IsLineTerminator(s[i]) {
      assert s[i] in s;
    }
  }

  /** A portable value is written clean. */
  lemma ValueClean(v: Value)
    requires PortableValue(v)
    ensures Clean(Words(v))
  {
    if v.List? {
      WordsClean(v.items);
    } else {
      WordClean(v.text);
    }
  }

  /** The setting lines of portable settings are clean. */
  lemma {:induction false} SettingRowsClean(s: Settings)
    requires PortableSettings(s)
    ensures forall k :: 0 <= k < |SettingRows(s)| ==> Clean(SettingRows(s)[k])
    ensures |SettingRows(s)| == |s|
    decreases |s|
  {
    if |s| > 0 {
      assert PortableSettings(s[1..]) by {
        forall i, j | 0 <= i < j < |s[1..]| ensures s[1..][i].0 != s[1..][j].0 {
          assert s[1..][i] == s[i + 1] && s[1..][j] == s[j + 1];
        }
        forall i | 0 <= i < |s[1..]|
          ensures Word(s[1..][i].0) && !StartsWith(s[1..][i].0, "iface") && PortableValue(s[1..][i].1)
        {
          assert s[1..][i] == s[i + 1];
        }
      }
      SettingRowsClean(s[1..]);
      WordClean(s[0].0);
      ValueClean(s[0].1);
      var rows := SettingRows(s);
      forall k | 0 <= k < |rows| ensures Clean(rows[k]) {
        if k > 0 {
          assert rows[k] == SettingRows(s[1..])[k - 1];
        }
      }
    }
  }

  /** The lines of a portable iface are clean. */
  lemma StanzaClean(c: IfaceConfig)
    requires PortableIface(c)
    ensures forall k :: 0 <= k < |Stanza(c)| ==> Clean(Stanza(c)[k])
  {
    IfaceRowClean(c);
    SettingRowsClean(Bucket(c));
    CleanAppend([IfaceRow(c)], SettingRows(Bucket(c)));
  }

  /** The header holds no terminator and no tab, and starts with `#`. */
  lemma HeaderChars()
    ensures Clean(Header[1..]) && Header[0] == '#' && |Header| > 5
    ensures Header[|Header| - 1] == '`'
  {
    var tail := " generated by " + "node.js package " + "`setup`";
    HeaderPieces();
    HeaderPiecesClean();
    assert Header[1..] == tail;
  }

  /** The header in three pieces. */
  lemma HeaderPieces()
    ensures Header == "#" + " generated by " + "node.js package " + "`setup`"
  {
  }

  /** The pieces after the `#` are clean. */
  lemma HeaderPiecesClean()
    ensures Clean(" generated by " + "node.js package " + "`setup`")
  {
    assert Clean(" generated by ");
    assert Clean("node.js package ");
    assert Clean("`setup`");
  }

  // ---------------------------------------------------------------------
  // Tabs removed

  /** Lines followed by CRLF, split in two, give the two texts. */
  lemma {:induction false} TerminatedAppend(a: seq<string>, b: seq<string>)
    ensures Terminated(a + b) == Terminated(a) + Terminated(b)
    decreases |a|
  {
    if |a| > 0 {
      assert (a + b)[1..] == a[1..] + b;
      TerminatedAppend(a[1..], b);
    } else {
      assert a + b == b;
    }
  }

  /** One setting line loses its tab and nothing else. */
  lemma SettingLinePlain(key: string, v: Value)
    requires Clean(key) && Clean(Words(v))
    ensures RemoveAll(SettingLine(key, v), '\t') == SettingRow(key, v) + CRLF
  {
    var row := SettingRow(key, v) + CRLF;
    assert SettingLine(key, v) == "\t" + row;
    RemoveAllAppend("\t", row, '\t');
    RemoveAllAbsent(row, '\t');
  }

  /** The settings lines lose their tabs and nothing else. */
  lemma {:induction false} SettingsBodyPlain(s: Settings)
    requires PortableSettings(s)
    ensures RemoveAll(SettingsBody(s), '\t') == Terminated(SettingRows(s))
    decreases |s|
  {
    if |s| > 0 {
      SettingRowsClean(s);
      assert PortableSettings(s[1..]) by {
        forall i, j | 0 <= i < j < |s[1..]| ensures s[1..][i].0 != s[1..][j].0 {
          assert s[1..][i] == s[i + 1] && s[1..][j] == s[j + 1];
        }
        forall i | 0 <= i < |s[1..]|
          ensures Word(s[1..][i].0) && !StartsWith(s[1..][i].0, "iface") && PortableValue(s[1..][i].1)
        {
          assert s[1..][i] == s[i + 1];
        }
      }
      SettingsBodyPlain(s[1..]);
      WordClean(s[0].0);
      ValueClean(s[0].1);
      SettingLinePlain(s[0].0, s[0].1);
      RemoveAllAppend(SettingLine(s[0].0, s[0].1), SettingsBody(s[1..]), '\t');
    }
  }

  /** Every iface object of the list is portable. */
  predicate AllPortable(cs: seq<IfaceConfig>)
  {
    forall k :: 0 <= k < |cs| ==> PortableIface(cs[k])
  }

  /** The iface line of a portable iface is clean. */
  lemma IfaceRowClean(c: IfaceConfig)
    requires PortableIface(c)
    ensures Clean(IfaceRow(c))
  {
    WordClean(c.device.value.text);
    WordClean(c.mode.value.text);
    assert Clean("iface ") && Clean(" inet ");
  }

  /** A line followed by CRLF is the line, then CRLF, then the rest. */
  lemma TerminatedCons(l: string, ls: seq<string>)
    ensures Terminated([l] + ls) == l + CRLF + Terminated(ls)
  {
    assert ([l] + ls)[1..] == ls;
  }

  /** One iface's part of the file loses its tabs and nothing else. */
  lemma BlockPlain(c: IfaceConfig)
    requires PortableIface(c)
    ensures RemoveAll(Block(c), '\t') == Terminated([""] + Stanza(c))
  {
    var row := IfaceRow(c);
    var rows := SettingRows(Bucket(c));
    assert IfaceLine(c) == row + CRLF;
    IfaceRowClean(c);
    SettingsBodyPlain(Bucket(c));
    TerminatedCons(row, rows);
    TerminatedCons("", Stanza(c));
    StripHead(row, SettingsBody(Bucket(c)), Terminated(rows), CRLF);
  }

  /** A blank line and a tab-free line, then text whose tabs are removed. */
  lemma StripHead(row: string, body: string, t: string, n: string)
    requires '\t' !in row && '\t' !in n && RemoveAll(body, '\t') == t
    ensures RemoveAll(n + (row + n) + body, '\t') == "" + n + (row + n + t)
  {
    var head := n + (row + n);
    assert '\t' !in head;
    RemoveAllAppend(head, body, '\t');
    RemoveAllAbsent(head, '\t');
    Assoc(n, row + n, t);
    assert "" + n == n;
  }

  /** All iface parts lose their tabs and nothing else. */
  lemma {:induction false} BlocksPlain(cs: seq<IfaceConfig>)
    requires AllPortable(cs)
    ensures RemoveAll(BlocksText(cs), '\t') == Terminated(StanzaRows(cs))
    decreases |cs|
  {
    if |cs| > 0 {
      assert AllPortable(cs[1..]) by {
        forall k | 0 <= k < |cs[1..]| ensures PortableIface(cs[1..][k]) {
          assert cs[1..][k] == cs[k + 1];
        }
      }
      BlocksPlain(cs[1..]);
      BlockPlain(cs[0]);
      RemoveAllAppend(Block(cs[0]), BlocksText(cs[1..]), '\t');
      TerminatedAppend([""] + Stanza(cs[0]), StanzaRows(cs[1..]));
    }
  }

  /** The saved text, tabs removed, is its lines each followed by CRLF. */
  lemma SavedPlain(autoList: seq<string>, cs: seq<IfaceConfig>)
    requires AllWords(autoList) && AllPortable(cs)
    ensures RemoveAll(Header + CRLF + AutoRow(autoList) + CRLF + BlocksText(cs), '\t')
      == Terminated([Header, AutoRow(autoList)] + StanzaRows(cs))
  {
    HeaderChars();
    assert Header == [Header[0]] + Header[1..];
    WordsClean(autoList);
    var head := Header + CRLF + AutoRow(autoList) + CRLF;
    assert '\t' !in head;
    RemoveAllAppend(head, BlocksText(cs), '\t');
    RemoveAllAbsent(head, '\t');
    BlocksPlain(cs);
    TerminatedAppend([Header, AutoRow(autoList)], StanzaRows(cs));
    assert [Header, AutoRow(autoList)][1..] == [AutoRow(autoList)];
    assert Terminated([Header, AutoRow(autoList)]) == head;
  }

  // ---------------------------------------------------------------------
  // Raw lines

  /** Each line with the carriage return that splitting on line feeds leaves on it. */
  function WithCR(lines: seq<string>): (r: seq<string>)
    ensures |r| == |lines|
    decreases |lines|
  {
    if |lines| == 0 then [] else [lines[0] + "\r"] + WithCR(lines[1..])
  }

  /** Carriage returns distribute over concatenation. */
  lemma {:induction false} WithCRAppend(a: seq<string>, b: seq<string>)
    ensures WithCR(a + b) == WithCR(a) + WithCR(b)
    decreases |a|
  {
    if |a| > 0 {
      assert (a + b)[1..] == a[1..] + b;
      WithCRAppend(a[1..], b);
    } else {
      assert a + b == b;
    }
  }

  /** Lines each followed by CRLF split on line feeds into the lines with their carriage returns, then an empty piece. */
  lemma {:induction false} SplitTerminated(lines: seq<string>)
    requires forall k :: 0 <= k < |lines| ==> '\n' !in lines[k]
    ensures SplitSep(Terminated(lines), "\n") == WithCR(lines) + [""]
    decreases |lines|
  {
    if |lines| == 0 {
      assert SplitSep("", "\n") == [""];
    } else {
      var l := lines[0] + "\r";
      SplitTerminated(lines[1..]);
      assert Terminated(lines) == l + "\n" + Terminated(lines[1..]);
      assert EndMarked("\n");
      SplitPieceSep(l, "\n", Terminated(lines[1..]));
    }
  }

  /** Every piece ends with a carriage return, so none is empty. */
  lemma {:induction false} WithCRNonEmpty(lines: seq<string>)
    ensures forall k :: 0 <= k < |WithCR(lines)| ==> WithCR(lines)[k] != ""
    decreases |lines|
  {
    if |lines| > 0 {
      WithCRNonEmpty(lines[1..]);
    }
  }

  /** The raw lines `normalize` walks in a text that, tabs removed, is lines each followed by CRLF. */
  lemma RawTerminated(text: string, lines: seq<string>)
    requires forall k :: 0 <= k < |lines| ==> '\n' !in lines[k]
    requires RemoveAll(text, '\t') == Terminated(lines)
    ensures RawLines(text) == WithCR(lines)
  {
    SplitTerminated(lines);
    NonEmptyAppend(WithCR(lines), [""]);
    WithCRNonEmpty(lines);
    NonEmptyKeeps(WithCR(lines));
    assert NonEmpty([""]) == [];
  }

  // ---------------------------------------------------------------------
  // Normalized lines

  /** Non-empty, with no `\s` at either end. */
  predicate Solid(s: string)
  {
    s != "" && IsTrimmed(s)
  }

  /** A line `normalize` passes through unchanged: solid and not an `iface` line. */
  predicate Plain(s: string)
  {
    Solid(s) && !StartsWith(s, "iface")
  }

  /** A word is solid. */
  lemma WordSolid(w: string)
    requires Word(w)
    ensures Solid(w)
  {
    assert !IsSpace(w[0]) && !IsSpace(w[|w| - 1]);
  }

  /** Text between two solid texts is solid. */
  lemma SolidConcat(a: string, m: string, b: string)
    requires Solid(a) && Solid(b)
    ensures Solid(a + m + b)
  {
    var t := a + m + b;
    assert t[0] == a[0];
    assert t[|t| - 1] == b[|b| - 1];
  }

  /** Solid pieces join into a solid text. */
  lemma {:induction false} JoinSolid(ws: seq<string>, sep: string)
    requires |ws| > 0 && forall k :: 0 <= k < |ws| ==> Solid(ws[k])
    ensures Solid(Join(ws, sep))
    decreases |ws|
  {
    if |ws| > 1 {
      JoinSolid(ws[1..], sep);
      SolidConcat(ws[0], sep, Join(ws[1..], sep));
    }
  }

  /** Words joined by spaces are solid. */
  lemma WordsSolid(ws: seq<string>)
    requires |ws| > 0 && AllWords(ws)
    ensures Solid(Join(ws, " "))
  {
    forall k | 0 <= k < |ws| ensures Solid(ws[k]) {
      WordSolid(ws[k]);
    }
    JoinSolid(ws, " ");
  }

  /** A portable value is written solid. */
  lemma ValueSolid(v: Value)
    requires PortableValue(v)
    ensures Solid(Words(v))
  {
    if v.List? {
      WordsSolid(v.items);
    } else {
      WordSolid(v.text);
    }
  }

  /** The `auto` line of a non-empty word list is solid and longer than `auto`. */
  lemma AutoRowSolid(autoList: seq<string>)
    requires |autoList| > 0 && AllWords(autoList)
    ensures Plain(AutoRow(autoList)) && |AutoRow(autoList)| > 5
    ensures StartsWith(AutoRow(autoList), "auto")
  {
    WordsSolid(autoList);
    assert Solid("auto");
    assert AutoRow(autoList) == "auto" + " " + Join(autoList, " ");
    SolidConcat("auto", " ", Join(autoList, " "));
    assert AutoRow(autoList)[..5] == "auto ";
  }

  /** The iface line is solid and starts with `iface`. */
  lemma IfaceRowSolid(c: IfaceConfig)
    requires PortableIface(c)
    ensures Solid(IfaceRow(c)) && StartsWith(IfaceRow(c), "iface")
  {
    var d, m := c.device.value.text, c.mode.value.text;
    WordSolid(m);
    assert Solid("iface");
    assert IfaceRow(c) == "iface" + (" " + d + " inet ") + m;
    SolidConcat("iface", " " + d + " inet ", m);
    assert IfaceRow(c)[..5] == "iface";
  }

  /** A setting line of a portable setting passes `normalize` unchanged. */
  lemma SettingRowPlain(key: string, v: Value)
    requires Word(key) && !StartsWith(key, "iface") && PortableValue(v)
    ensures Plain(SettingRow(key, v))
  {
    var r := SettingRow(key, v);
    WordSolid(key);
    ValueSolid(v);
    SolidConcat(key, " ", Words(v));
    if |key| >= 5 {
      assert r[..5] == key[..5];
    } else {
      assert r[|key|] == ' ';
      assert "iface"[|key|] != ' ';
    }
  }

  /** The settings after the first are portable too. */
  lemma PortableTail(s: Settings)
    requires |s| > 0 && PortableSettings(s)
    ensures PortableSettings(s[1..])
  {
    forall i, j | 0 <= i < j < |s[1..]| ensures s[1..][i].0 != s[1..][j].0 {
      assert s[1..][i] == s[i + 1] && s[1..][j] == s[j + 1];
    }
    forall i | 0 <= i < |s[1..]|
      ensures Word(s[1..][i].0) && !StartsWith(s[1..][i].0, "iface") && PortableValue(s[1..][i].1)
    {
      assert s[1..][i] == s[i + 1];
    }
  }

  /** The setting lines of portable settings pass `normalize` unchanged. */
  lemma {:induction false} SettingRowsPlain(s: Settings)
    requires PortableSettings(s)
    ensures forall k :: 0 <= k < |SettingRows(s)| ==> Plain(SettingRows(s)[k])
    decreases |s|
  {
    if |s| > 0 {
      PortableTail(s);
      SettingRowsPlain(s[1..]);
      SettingRowPlain(s[0].0, s[0].1);
      var rows := SettingRows(s);
      forall k | 0 <= k < |rows| ensures Plain(rows[k]) {
        if k > 0 {
          assert rows[k] == SettingRows(s[1..])[k - 1];
        }
      }
    }
  }

  /** The list after the first iface is portable too. */
  lemma AllPortableTail(cs: seq<IfaceConfig>)
    requires |cs| > 0 && AllPortable(cs)
    ensures AllPortable(cs[1..])
  {
    forall k | 0 <= k < |cs[1..]| ensures PortableIface(cs[1..][k]) {
      assert cs[1..][k] == cs[k + 1];
    }
  }

  /** Plain lines come out of `normalize` as they are, whatever raw line precedes them. */
  lemma {:induction false} NormPlain(prev: Option<string>, rows: seq<string>)
    requires forall k :: 0 <= k < |rows| ==> Plain(rows[k])
    ensures Norm(prev, WithCR(rows)) == rows
    decreases |rows|
  {
    if |rows| > 0 {
      TrimCarriageReturn(rows[0]);
      NormPlain(Some(rows[0] + "\r"), rows[1..]);
      assert !NeedsSentinel(prev, rows[0] + "\r");
      assert [rows[0]] + rows[1..] == rows;
    }
  }

  /** Each iface's normalized lines: the blank line, the `#` sentinel, the iface line, its settings. */
  function NormRows(cs: seq<IfaceConfig>): seq<string>
    requires forall k :: 0 <= k < |cs| ==> cs[k].device.Some? && cs[k].mode.Some?
    decreases |cs|
  {
    if |cs| == 0 then [] else ["", Hashtag] + Stanza(cs[0]) + NormRows(cs[1..])
  }

  /** A blank line followed by an iface line normalizes to the blank line, the sentinel and the iface line. */
  lemma NormHead(prev: Option<string>, row: string)
    requires Solid(row) && StartsWith(row, "iface")
    ensures Norm(prev, ["\r", row + "\r"]) == ["", Hashtag, row]
  {
    TrimCarriageReturn("");
    TrimCarriageReturn(row);
    assert "" + "\r" == "\r";
    assert !NeedsSentinel(prev, "\r");
    assert Emitted(prev, "\r") == [""];
    assert NeedsSentinel(Some("\r"), row + "\r");
    assert Emitted(Some("\r"), row + "\r") == [Hashtag, row];
    assert ["\r", row + "\r"][1..] == [row + "\r"];
    assert Norm(Some("\r"), [row + "\r"]) == [Hashtag, row] + Norm(Some(row + "\r"), []);
  }

  /** The rows of the first stanza, then those of the rest. */
  lemma StanzaRowsUnfold(cs: seq<IfaceConfig>)
    requires |cs| > 0 && forall k :: 0 <= k < |cs| ==> cs[k].device.Some? && cs[k].mode.Some?
    ensures StanzaRows(cs) == ["", IfaceRow(cs[0])] + SettingRows(Bucket(cs[0])) + StanzaRows(cs[1..])
  {
    Regroup1("", IfaceRow(cs[0]), SettingRows(Bucket(cs[0])), StanzaRows(cs[1..]));
  }

  /** A line, then a line and more lines, then the rest. */
  lemma Regroup1(a: string, r: string, xs: seq<string>, ys: seq<string>)
    ensures [a] + ([r] + xs) + ys == [a, r] + xs + ys
  {
  }

  /** The normalized rows of the first stanza, then those of the rest. */
  lemma NormRowsUnfold(cs: seq<IfaceConfig>)
    requires |cs| > 0 && forall k :: 0 <= k < |cs| ==> cs[k].device.Some? && cs[k].mode.Some?
    ensures NormRows(cs) == ["", Hashtag, IfaceRow(cs[0])] + SettingRows(Bucket(cs[0])) + NormRows(cs[1..])
  {
    Regroup("", Hashtag, IfaceRow(cs[0]), SettingRows(Bucket(cs[0])), NormRows(cs[1..]));
  }

  /** Two lines, then a line and more lines, then the rest. */
  lemma Regroup(a: string, b: string, r: string, xs: seq<string>, ys: seq<string>)
    ensures [a, b] + ([r] + xs) + ys == [a, b, r] + xs + ys
  {
  }

  /** Carriage returns on a blank line, an iface line, its settings and what follows. */
  lemma WithCRStanza(row: string, rows: seq<string>, rest: seq<string>)
    ensures WithCR(["", row] + rows + rest) == ["\r", row + "\r"] + WithCR(rows) + WithCR(rest)
  {
    WithCRAppend(["", row] + rows, rest);
    WithCRAppend(["", row], rows);
    assert ["", row][1..] == [row];
    assert WithCR([row]) == [row + "\r"];
    assert "" + "\r" == "\r";
  }

  /** One stanza's raw lines normalize to the blank line, the sentinel, the iface line and its settings. */
  lemma NormStanzaStep(prev: Option<string>, row: string, rows: seq<string>, tail: seq<string>)
    requires Solid(row) && StartsWith(row, "iface")
    requires forall k :: 0 <= k < |rows| ==> Plain(rows[k])
    ensures var head := ["\r", row + "\r"] + WithCR(rows);
      Norm(prev, head + tail) == ["", Hashtag, row] + rows + Norm(LastOr(prev, head), tail)
  {
    var first := ["\r", row + "\r"];
    NormAppend(prev, first + WithCR(rows), tail);
    NormAppend(prev, first, WithCR(rows));
    NormHead(prev, row);
    NormPlain(LastOr(prev, first), rows);
  }

  /** The stanza lines of the saved text normalize to NormRows: a sentinel lands before each iface line. */
  lemma {:induction false} NormStanzas(prev: Option<string>, cs: seq<IfaceConfig>)
    requires AllPortable(cs)
    ensures Norm(prev, WithCR(StanzaRows(cs))) == NormRows(cs)
    decreases |cs|
  {
    if |cs| > 0 {
      var c := cs[0];
      var row := IfaceRow(c);
      var rows := SettingRows(Bucket(c));
      var rest := StanzaRows(cs[1..]);
      StanzaRowsUnfold(cs);
      WithCRStanza(row, rows, rest);
      IfaceRowSolid(c);
      SettingRowsPlain(Bucket(c));
      var head := ["\r", row + "\r"] + WithCR(rows);
      NormStanzaStep(prev, row, rows, WithCR(rest));
      AllPortableTail(cs);
      NormStanzas(LastOr(prev, head), cs[1..]);
      NormRowsUnfold(cs);
    }
  }

  /** The stanza rows of portable ifaces are clean. */
  lemma {:induction false} StanzaRowsClean(cs: seq<IfaceConfig>)
    requires AllPortable(cs)
    ensures forall k :: 0 <= k < |StanzaRows(cs)| ==> Clean(StanzaRows(cs)[k])
    decreases |cs|
  {
    if |cs| > 0 {
      AllPortableTail(cs);
      StanzaRowsClean(cs[1..]);
      StanzaClean(cs[0]);
      assert Clean("");
      CleanAppend([""], Stanza(cs[0]));
      CleanAppend([""] + Stanza(cs[0]), StanzaRows(cs[1..]));
    }
  }

  /** Two lists of clean lines make one. */
  lemma CleanAppend(a: seq<string>, b: seq<string>)
    requires forall k :: 0 <= k < |a| ==> Clean(a[k])
    requires forall k :: 0 <= k < |b| ==> Clean(b[k])
    ensures forall k :: 0 <= k < |a + b| ==> Clean((a + b)[k])
  {
    forall k | 0 <= k < |a + b| ensures Clean((a + b)[k]) {
      if k >= |a| {
        assert (a + b)[k] == b[k - |a|];
      }
    }
  }

  // ---------------------------------------------------------------------
  // The normalized text

  /** The normalized text after the `auto` line, built stanza by stanza. */
  function Emit(cs: seq<IfaceConfig>): string
    requires forall k :: 0 <= k < |cs| ==> cs[k].device.Some? && cs[k].mode.Some?
    decreases |cs|, 1
  {
    if |cs| == 0 then Hashtag else CRLF + FromSentinel(cs)
  }

  /** The normalized text from a `#` sentinel line on: the sentinel, then the stanzas. */
  function FromSentinel(cs: seq<IfaceConfig>): string
    requires forall k :: 0 <= k < |cs| ==> cs[k].device.Some? && cs[k].mode.Some?
    decreases |cs|, 0
  {
    if |cs| == 0 then Hashtag
    else Hashtag + CRLF + (Join(Stanza(cs[0]), CRLF) + CRLF + Emit(cs[1..]))
  }

  /** Regrouping six pieces of text. */
  lemma Concat6(a: string, b: string, c: string, d: string, e: string, f: string)
    ensures a + b + c + d + e + f == a + (b + c + (d + e + f))
  {
  }

  /** Joining the normalized rows and the final sentinel gives Emit. */
  lemma {:induction false} EmitJoin(cs: seq<IfaceConfig>)
    requires forall k :: 0 <= k < |cs| ==> cs[k].device.Some? && cs[k].mode.Some?
    ensures Join(NormRows(cs) + [Hashtag], CRLF) == Emit(cs)
    decreases |cs|
  {
    if |cs| > 0 {
      var st := Stanza(cs[0]);
      var after := NormRows(cs[1..]) + [Hashtag];
      EmitJoin(cs[1..]);
      assert NormRows(cs) + [Hashtag] == (["", Hashtag] + st) + after;
      JoinAppend(["", Hashtag] + st, after, CRLF);
      JoinAppend(["", Hashtag], st, CRLF);
      assert ["", Hashtag][1..] == [Hashtag];
      assert Join(["", Hashtag], CRLF) == "" + CRLF + Hashtag;
      assert "" + CRLF + Hashtag == CRLF + Hashtag;
      Concat6(CRLF, Hashtag, CRLF, Join(st, CRLF), CRLF, Join(after, CRLF));
    }
  }

  /** The raw lines of the saved text: the header, the `auto` line and the stanza rows, each with its carriage return. */
  lemma RawSaved(autoList: seq<string>, cs: seq<IfaceConfig>)
    requires AllWords(autoList) && AllPortable(cs)
    ensures RawLines(Header + CRLF + AutoRow(autoList) + CRLF + BlocksText(cs))
      == WithCR([Header, AutoRow(autoList)]) + WithCR(StanzaRows(cs))
  {
    var text := Header + CRLF + AutoRow(autoList) + CRLF + BlocksText(cs);
    var top := [Header, AutoRow(autoList)];
    SavedPlain(autoList, cs);
    NoLineFeeds(autoList, cs);
    RawTerminated(text, top + StanzaRows(cs));
    WithCRAppend(top, StanzaRows(cs));
  }

  /** The normalized lines of the saved text: the header, the `auto` line, NormRows, the final sentinel. */
  lemma NormalizedLinesSaved(autoList: seq<string>, cs: seq<IfaceConfig>)
    requires |autoList| > 0 && AllWords(autoList) && AllPortable(cs)
    ensures NormalizedLines(Header + CRLF + AutoRow(autoList) + CRLF + BlocksText(cs))
      == [Header, AutoRow(autoList)] + (NormRows(cs) + [Hashtag])
  {
    var top := [Header, AutoRow(autoList)];
    RawSaved(autoList, cs);
    TopPlain(autoList);
    NormTop(top, cs);
  }

  /** Lines that pass unchanged, then the stanza rows, normalize to those lines, then NormRows. */
  lemma NormTop(top: seq<string>, cs: seq<IfaceConfig>)
    requires forall k :: 0 <= k < |top| ==> Plain(top[k])
    requires AllPortable(cs)
    ensures Norm(None, WithCR(top) + WithCR(StanzaRows(cs))) == top + NormRows(cs)
  {
    NormAppend(None, WithCR(top), WithCR(StanzaRows(cs)));
    NormPlain(None, top);
    NormStanzas(LastOr(None, WithCR(top)), cs);
  }

  /** Two lines, then more, joined by CRLF. */
  lemma JoinTop(h: string, a: string, rest: seq<string>)
    requires |rest| > 0
    ensures Join([h, a] + rest, CRLF) == h + CRLF + (a + CRLF + Join(rest, CRLF))
  {
    JoinAppend([h, a], rest, CRLF);
    assert [h, a][1..] == [a];
  }

  /** Normalizing the saved text gives the header, the `auto` line and Emit, joined by CRLF. */
  lemma NormalizedSaved(autoList: seq<string>, cs: seq<IfaceConfig>)
    requires |autoList| > 0 && AllWords(autoList) && AllPortable(cs)
    ensures Normalized(Header + CRLF + AutoRow(autoList) + CRLF + BlocksText(cs))
      == Header + CRLF + (AutoRow(autoList) + CRLF + Emit(cs))
  {
    NormalizedLinesSaved(autoList, cs);
    JoinTop(Header, AutoRow(autoList), NormRows(cs) + [Hashtag]);
    EmitJoin(cs);
  }

  /** The header and the `auto` line pass `normalize` unchanged. */
  lemma TopPlain(autoList: seq<string>)
    requires |autoList| > 0 && AllWords(autoList)
    ensures forall k :: 0 <= k < 2 ==> Plain([Header, AutoRow(autoList)][k])
  {
    HeaderChars();
    AutoRowSolid(autoList);
    assert Header[..5] != "iface" by {
      assert Header[..5][0] == '#';
    }
  }

  /** No line of the saved text holds a line feed. */
  lemma NoLineFeeds(autoList: seq<string>, cs: seq<IfaceConfig>)
    requires AllWords(autoList) && AllPortable(cs)
    ensures var rows := [Header, AutoRow(autoList)] + StanzaRows(cs);
      forall k :: 0 <= k < |rows| ==> '\n' !in rows[k]
  {
    HeaderChars();
    assert Header == [Header[0]] + Header[1..];
    WordsClean(autoList);
    StanzaRowsClean(cs);
    var rows := [Header, AutoRow(autoList)] + StanzaRows(cs);
    forall k | 0 <= k < |rows| ensures '\n' !in rows[k] {
      if k >= 2 {
        assert rows[k] == StanzaRows(cs)[k - 2];
      }
    }
  }
}
