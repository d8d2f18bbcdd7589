/**
 * The second half of the round trip: `parse` on the normalized saved text.
 * The `auto` scan finds the `auto` line right after the header, the stanza
 * scan cuts one block per iface at the `#` sentinel that follows it, and
 * each block decodes back into the iface's device, mode and settings.
 */
module ParseSaved {
  import opened Wrappers
  import opened Strings
  import opened Settings
  import opened Normalization
  import opened Parse
  import opened Serialization
  import opened Scanning
  import opened RoundTrip

  // ---------------------------------------------------------------------
  // The `auto` line

  /** The header holds no line terminator. */
  lemma HeaderNoTerminator()
    ensures NoTerminator(Header) && Header[0] == '#'
  {
    HeaderChars();
    CleanNoTerminator(Header[1..]);
    forall i | 0 <= i < |Header| ensures !IsLineTerminator(Header[i]) {
      if i > 0 {
        assert Header[i] == Header[1..][i - 1];
      }
    }
  }

  /** The `auto` line holds no line terminator. */
  lemma AutoRowNoTerminator(autoList: seq<string>)
    requires AllWords(autoList)
    ensures NoTerminator(AutoRow(autoList))
  {
    WordsClean(autoList);
    assert Clean("auto ");
    CleanNoTerminator(AutoRow(autoList));
  }

  /** `^auto(.+)$` captures a solid `auto` line that follows a comment line, past its first four letters. */
  lemma AutoGroupAfter(h: string, a: string, rest: string)
    requires NoTerminator(h) && |h| > 0 && h[0] == '#'
    requires NoTerminator(a) && |a| > 4 && StartsWith(a, "auto")
    ensures AutoGroup(h + CRLF + (a + CRLF + rest)) == Some(a[4..])
  {
    SkipLineAuto(h, a + CRLF + rest);
    AutoHere(a, rest);
  }

  /** `^auto(.+)$` captures the `auto` line of the saved text, past its first four letters. */
  lemma AutoGroupSaved(autoList: seq<string>, rest: string)
    requires |autoList| > 0 && AllWords(autoList)
    ensures AutoGroup(Header + CRLF + (AutoRow(autoList) + CRLF + rest)) == Some(" " + Join(autoList, " "))
  {
    HeaderNoTerminator();
    AutoGroupRow(Header, autoList, rest);
  }

  /** `^auto(.+)$` captures an `auto` line that follows a comment line, past its first four letters. */
  lemma AutoGroupRow(h: string, autoList: seq<string>, rest: string)
    requires NoTerminator(h) && |h| > 0 && h[0] == '#'
    requires |autoList| > 0 && AllWords(autoList)
    ensures AutoGroup(h + CRLF + (AutoRow(autoList) + CRLF + rest)) == Some(" " + Join(autoList, " "))
  {
    AutoRowNoTerminator(autoList);
    AutoRowSolid(autoList);
    AutoGroupAfter(h, AutoRow(autoList), rest);
    AutoRowTail(autoList);
  }

  /** The `auto` line past its first four letters. */
  lemma AutoRowTail(autoList: seq<string>)
    ensures AutoRow(autoList)[4..] == " " + Join(autoList, " ")
  {
  }

  /** The captured group splits back into the device list. */
  lemma AutoListBack(autoList: seq<string>)
    requires |autoList| > 0 && AllWords(autoList)
    ensures NonEmpty(SplitSpace(" " + Join(autoList, " "))) == autoList
  {
    var j := Join(autoList, " ");
    assert (" " + j)[1..] == j;
    assert SplitSpace(" " + j) == [""] + SplitSpace(j);
    SplitSpaceJoin(autoList);
    NonEmptyAppend([""], autoList);
    assert NonEmpty([""]) == [];
    NonEmptyKeeps(autoList);
  }

  // ---------------------------------------------------------------------
  // The stanza scan

  /** The block the stanza scan cuts for the first iface: its lines, CRLF, and a blank line unless it is the last. */
  function BlockTexts(cs: seq<IfaceConfig>): (r: seq<string>)
    requires forall k :: 0 <= k < |cs| ==> cs[k].device.Some? && cs[k].mode.Some?
    ensures |r| == |cs|
    decreases |cs|
  {
    if |cs| == 0 then []
    else [Join(Stanza(cs[0]), CRLF) + CRLF + (if |cs| > 1 then CRLF else "")] + BlockTexts(cs[1..])
  }

  /** The lines of one stanza joined by CRLF start with `iface` and hold no `#` and no line feed. */
  lemma StanzaTextShape(c: IfaceConfig)
    requires PortableIface(c)
    ensures StartsWith(Join(Stanza(c), CRLF), "iface") && '#' !in Join(Stanza(c), CRLF)
  {
    StanzaClean(c);
    JoinNoHash(Stanza(c), CRLF);
    IfaceRowSolid(c);
    var st := Stanza(c);
    if |st| > 1 {
      JoinAppend([st[0]], st[1..], CRLF);
      assert [st[0]] + st[1..] == st;
      assert Join(st, CRLF)[..5] == st[0][..5];
    }
  }

  /** Joining pieces free of `#` with a separator free of `#` gives a text free of `#`. */
  lemma {:induction false} JoinNoHash(ws: seq<string>, sep: string)
    requires '#' !in sep && forall k :: 0 <= k < |ws| ==> Clean(ws[k])
    ensures '#' !in Join(ws, sep)
    decreases |ws|
  {
    if |ws| > 1 {
      JoinNoHash(ws[1..], sep);
    }
  }

  /** Emit is a blank line before the sentinel when there are stanzas, the sentinel alone otherwise. */
  lemma EmitGap(cs: seq<IfaceConfig>)
    requires forall k :: 0 <= k < |cs| ==> cs[k].device.Some? && cs[k].mode.Some?
    ensures Emit(cs) == (if |cs| > 0 then CRLF else "") + FromSentinel(cs)
  {
    if |cs| == 0 {
      assert Emit(cs) == Hashtag == FromSentinel(cs);
      assert "" + Hashtag == Hashtag;
    } else {
      assert Emit(cs) == CRLF + FromSentinel(cs);
    }
  }

  /** A blank line is passed over by the stanza scan. */
  lemma SkipBlank(rest: string)
    ensures Blocks(CRLF + rest, 0) == Blocks(rest, 0)
  {
    assert NoTerminator("");
    assert CRLF + rest == "" + CRLF + rest;
    SkipLineBlocks("", rest);
  }

  /** The stanza scan of Emit passes over the blank line before the sentinel. */
  lemma BlocksEmit(cs: seq<IfaceConfig>)
    requires forall k :: 0 <= k < |cs| ==> cs[k].device.Some? && cs[k].mode.Some?
    ensures Blocks(Emit(cs), 0) == Blocks(FromSentinel(cs), 0)
  {
    if |cs| > 0 {
      EmitGap(cs);
      SkipBlank(FromSentinel(cs));
    }
  }

  /** The scan finds nothing in the final sentinel. */
  lemma BlocksOfSentinel()
    ensures Blocks(Hashtag, 0) == []
  {
    assert !IfaceAt(Hashtag, 0);
    assert Blocks(Hashtag, 0) == Blocks(Hashtag, 1);
  }

  /** The first block, then the text from the next sentinel on. */
  lemma BlockThenSentinel(cs: seq<IfaceConfig>)
    requires |cs| > 0 && forall k :: 0 <= k < |cs| ==> cs[k].device.Some? && cs[k].mode.Some?
    ensures Join(Stanza(cs[0]), CRLF) + CRLF + Emit(cs[1..]) == BlockTexts(cs)[0] + FromSentinel(cs[1..])
  {
    var gap := if |cs| > 1 then CRLF else "";
    EmitGap(cs[1..]);
    Concat4(Join(Stanza(cs[0]), CRLF), CRLF, gap, FromSentinel(cs[1..]));
  }

  /** Regrouping four pieces of text. */
  lemma Concat4(a: string, b: string, c: string, d: string)
    ensures a + b + (c + d) == a + b + c + d
  {
  }

  /** A stanza's text with its CRLF and an optional blank line is a block the scan can cut. */
  lemma BlockShape(j: string, gap: string)
    requires StartsWith(j, "iface") && '#' !in j && (gap == "" || gap == CRLF)
    ensures var x := j + CRLF + gap;
      StartsWith(x, "iface") && '#' !in x && EndsLine(x)
  {
    var x := j + CRLF + gap;
    assert x[..5] == j[..5];
    assert x[|x| - 1] == '\n';
  }

  /** One block is cut before the next sentinel. */
  lemma BlockCut(cs: seq<IfaceConfig>)
    requires |cs| > 0 && AllPortable(cs)
    ensures Blocks(BlockTexts(cs)[0] + FromSentinel(cs[1..]), 0)
      == [BlockTexts(cs)[0]] + Blocks(FromSentinel(cs[1..]), 0)
  {
    var x := BlockTexts(cs)[0];
    var j := Join(Stanza(cs[0]), CRLF);
    StanzaTextShape(cs[0]);
    BlockShape(j, if |cs| > 1 then CRLF else "");
    BlockHere(x, FromSentinel(cs[1..]));
  }

  /** The stanza scan from a sentinel on cuts exactly BlockTexts. */
  lemma {:induction false} BlocksFromSentinel(cs: seq<IfaceConfig>)
    requires AllPortable(cs)
    ensures Blocks(FromSentinel(cs), 0) == BlockTexts(cs)
    decreases |cs|
  {
    if |cs| == 0 {
      BlocksOfSentinel();
    } else {
      var rest := Join(Stanza(cs[0]), CRLF) + CRLF + Emit(cs[1..]);
      assert NoTerminator(Hashtag);
      SkipLineBlocks(Hashtag, rest);
      BlockThenSentinel(cs);
      BlockCut(cs);
      AllPortableTail(cs);
      BlocksFromSentinel(cs[1..]);
    }
  }

  /** Two lines that are not `iface` lines, then Emit: the stanza scan cuts one block per iface. */
  lemma BlocksAfterTop(h: string, a: string, cs: seq<IfaceConfig>)
    requires NoTerminator(h) && !StartsWith(h, "iface")
    requires NoTerminator(a) && !StartsWith(a, "iface")
    requires AllPortable(cs)
    ensures Blocks(h + CRLF + (a + CRLF + Emit(cs)), 0) == BlockTexts(cs)
  {
    SkipLineBlocks(h, a + CRLF + Emit(cs));
    SkipLineBlocks(a, Emit(cs));
    BlocksEmit(cs);
    BlocksFromSentinel(cs);
  }

  /** The header is not an `iface` line. */
  lemma HeaderNotIface()
    ensures !StartsWith(Header, "iface")
  {
    HeaderChars();
    assert Header[..5][0] == '#';
  }

  /** The stanza scan of the normalized saved text cuts one block per iface. */
  lemma BlocksSaved(autoList: seq<string>, cs: seq<IfaceConfig>)
    requires |autoList| > 0 && AllWords(autoList) && AllPortable(cs)
    ensures Blocks(Header + CRLF + (AutoRow(autoList) + CRLF + Emit(cs)), 0) == BlockTexts(cs)
  {
    HeaderNoTerminator();
    HeaderNotIface();
    AutoRowNoTerminator(autoList);
    AutoRowSolid(autoList);
    BlocksAfterTop(Header, AutoRow(autoList), cs);
  }

  // ---------------------------------------------------------------------
  // One block

  /** A block splits back into its stanza's lines. */
  lemma BlockLines(c: IfaceConfig, last: bool)
    requires PortableIface(c)
    ensures StanzaLines(Join(Stanza(c), CRLF) + CRLF + (if last then "" else CRLF)) == Stanza(c)
  {
    var st := Stanza(c);
    var tail: seq<string> := if last then [""] else ["", ""];
    JoinAppend(st, tail, CRLF);
    assert Join(tail, CRLF) == if last then "" else CRLF by {
      if !last {
        assert tail[1..] == [""];
        assert Join(tail, CRLF) == "" + CRLF + "";
      }
    }
    StanzaClean(c);
    forall k | 0 <= k < |st + tail| ensures '\n' !in (st + tail)[k] {
      if k < |st| {
        assert (st + tail)[k] == st[k];
      }
    }
    assert EndMarked(CRLF);
    SplitJoin(st + tail, CRLF);
    NonEmptyAppend(st, tail);
    StanzaSolid(c);
    NonEmptyKeeps(st);
    assert NonEmpty(tail) == [];
  }

  /** No line of a stanza is empty. */
  lemma StanzaSolid(c: IfaceConfig)
    requires PortableIface(c)
    ensures forall k :: 0 <= k < |Stanza(c)| ==> Stanza(c)[k] != ""
  {
    IfaceRowSolid(c);
    SettingRowsPlain(Bucket(c));
    forall k | 0 <= k < |Stanza(c)| ensures Stanza(c)[k] != "" {
      if k > 0 {
        assert Stanza(c)[k] == SettingRows(Bucket(c))[k - 1];
      }
    }
  }

  /** The iface line splits into `iface`, the device, `inet` and the mode. */
  lemma IfaceRowWords(c: IfaceConfig)
    requires PortableIface(c)
    ensures SplitSpace(IfaceRow(c)) == ["iface", c.device.value.text, "inet", c.mode.value.text]
  {
    var d, m := c.device.value.text, c.mode.value.text;
    var ws := ["iface", d, "inet", m];
    assert ws[1..] == [d, "inet", m] && ws[1..][1..] == ["inet", m] && ws[1..][1..][1..] == [m];
    assert Join(["inet", m], " ") == "inet" + " " + m;
    assert Join([d, "inet", m], " ") == d + " " + Join(["inet", m], " ");
    assert Join(ws, " ") == "iface" + " " + Join([d, "inet", m], " ");
    assert IfaceRow(c) == Join(ws, " ");
    assert NoSpace("iface") && NoSpace("inet");
    SplitSpaceJoin(ws);
  }

  /** A setting line reads back as its key and value. */
  lemma SettingOfRow(key: string, v: Value)
    requires Word(key) && PortableValue(v)
    ensures SettingOf(SettingRow(key, v)) == (key, v)
  {
    var ws := if v.List? then [key] + v.items else [key, v.text];
    assert ws[1..] == if v.List? then v.items else [v.text];
    assert Join(ws, " ") == SettingRow(key, v);
    forall k | 0 <= k < |ws| ensures NoSpace(ws[k]) {
      if k > 0 && v.List? {
        assert ws[k] == v.items[k - 1];
      }
    }
    SplitSpaceJoin(ws);
  }

  /** Assigning the setting lines to an object without those keys appends the settings in order. */
  lemma {:induction false} ApplyFresh(m: Settings, s: Settings)
    requires UniqueKeys(m + s) && PortableSettings(s)
    ensures ApplyLines(m, SettingRows(s)) == m + s
    decreases |s|
  {
    if |s| > 0 {
      var (key, v) := s[0];
      SettingOfRow(key, v);
      assert !HasKey(m, key) by {
        forall i | 0 <= i < |m| ensures m[i].0 != key {
          assert (m + s)[i] == m[i] && (m + s)[|m|] == s[0];
        }
      }
      assert Put(m, key, v) == m + [s[0]];
      assert (m + [s[0]]) + s[1..] == m + s;
      PortableTail(s);
      assert SettingRows(s)[1..] == SettingRows(s[1..]);
      ApplyFresh(m + [s[0]], s[1..]);
    } else {
      assert m + s == m;
    }
  }

  /** A block decodes back into its iface. */
  lemma ParseStanza(c: IfaceConfig, block: string, autoList: seq<string>)
    requires PortableIface(c) && StanzaLines(block) == Stanza(c)
    ensures ParseBlock(block, autoList).Ok?
    ensures Restored(ParseBlock(block, autoList).value, c, autoList)
  {
    StanzaHead(c, block, autoList);
    var s := Bucket(c);
    if |s| > 0 {
      StanzaSettings(c, block, autoList);
    }
  }

  /** The iface line of a block gives back the device, the mode and the `auto` flag. */
  lemma StanzaHead(c: IfaceConfig, block: string, autoList: seq<string>)
    requires PortableIface(c) && StanzaLines(block) == Stanza(c)
    ensures |SplitSpace(StanzaLines(block)[0])| == 4
    ensures var iface := Defaults(SplitSpace(StanzaLines(block)[0]), autoList, block);
      && iface.device == Some(Show(c.device.value)) && iface.mode == Some(Show(c.mode.value))
      && iface.auto == (Show(c.device.value) in autoList)
      && ModeSettings(iface) == []
  {
    IfaceRowWords(c);
  }

  /** The setting lines of a block give back the settings, in order. */
  lemma StanzaSettings(c: IfaceConfig, block: string, autoList: seq<string>)
    requires PortableIface(c) && StanzaLines(block) == Stanza(c) && |Bucket(c)| > 0
    ensures ApplyLines([], StanzaLines(block)[1..]) == Bucket(c)
  {
    var s := Bucket(c);
    SettingRowsClean(s);
    assert s + [] == s && [] + s == s;
    ApplyFresh([], s);
    assert StanzaLines(block)[1..] == SettingRows(s);
  }

  /** Each parsed iface gives back its saved iface. */
  predicate AllRestored(ifaces: seq<Iface>, cs: seq<IfaceConfig>, autoList: seq<string>)
    requires forall k :: 0 <= k < |cs| ==> cs[k].device.Some? && cs[k].mode.Some?
  {
    |ifaces| == |cs| && forall k :: 0 <= k < |cs| ==> Restored(ifaces[k], cs[k], autoList)
  }

  /** Restoring a first iface and the rest restores the whole list. */
  lemma AllRestoredCons(ifaces: seq<Iface>, cs: seq<IfaceConfig>, autoList: seq<string>)
    requires |ifaces| > 0 && |cs| > 0
    requires forall k :: 0 <= k < |cs| ==> cs[k].device.Some? && cs[k].mode.Some?
    requires Restored(ifaces[0], cs[0], autoList) && AllRestored(ifaces[1..], cs[1..], autoList)
    ensures AllRestored(ifaces, cs, autoList)
  {
    forall k | 0 < k < |cs| ensures Restored(ifaces[k], cs[k], autoList) {
      assert ifaces[k] == ifaces[1..][k - 1] && cs[k] == cs[1..][k - 1];
    }
  }

  /** The walk past a first block that decodes. */
  lemma ParseBlocksCons(acc: seq<Iface>, blocks: seq<string>, autoList: seq<string>)
    requires |blocks| > 0 && ParseBlock(blocks[0], autoList).Ok?
    ensures ParseBlocks(acc, blocks, autoList)
      == ParseBlocks(acc + [ParseBlock(blocks[0], autoList).value], blocks[1..], autoList)
  {
  }

  /** A walk result that restores the first iface after `acc`, then the rest, restores them all after `acc`. */
  lemma RestoredAfter(acc: seq<Iface>, iface: Iface, v: seq<Iface>, cs: seq<IfaceConfig>, autoList: seq<string>)
    requires |cs| > 0 && forall k :: 0 <= k < |cs| ==> cs[k].device.Some? && cs[k].mode.Some?
    requires |v| >= |acc| + 1 && v[..|acc| + 1] == acc + [iface]
    requires Restored(iface, cs[0], autoList) && AllRestored(v[|acc| + 1..], cs[1..], autoList)
    ensures v[..|acc|] == acc && AllRestored(v[|acc|..], cs, autoList)
  {
    assert v[..|acc|] == v[..|acc| + 1][..|acc|];
    assert v[|acc|..][0] == v[..|acc| + 1][|acc|];
    assert v[|acc|..][1..] == v[|acc| + 1..];
    AllRestoredCons(v[|acc|..], cs, autoList);
  }

  /** The first block decodes back into the first iface. */
  lemma FirstBlock(cs: seq<IfaceConfig>, autoList: seq<string>)
    requires |cs| > 0 && AllPortable(cs)
    ensures ParseBlock(BlockTexts(cs)[0], autoList).Ok?
    ensures Restored(ParseBlock(BlockTexts(cs)[0], autoList).value, cs[0], autoList)
  {
    BlockLines(cs[0], |cs| == 1);
    ParseStanza(cs[0], BlockTexts(cs)[0], autoList);
  }

  /** The blocks after the first are those of the remaining ifaces. */
  lemma BlockTextsTail(cs: seq<IfaceConfig>)
    requires |cs| > 0 && forall k :: 0 <= k < |cs| ==> cs[k].device.Some? && cs[k].mode.Some?
    ensures BlockTexts(cs)[1..] == BlockTexts(cs[1..])
  {
  }

  /** Every block decodes back into its iface, in order, after those already parsed. */
  lemma {:induction false} ParseBlocksSaved(acc: seq<Iface>, cs: seq<IfaceConfig>, autoList: seq<string>)
    requires AllPortable(cs)
    ensures var r := ParseBlocks(acc, BlockTexts(cs), autoList);
      && r.Ok? && |r.value| >= |acc| && r.value[..|acc|] == acc
      && AllRestored(r.value[|acc|..], cs, autoList)
    decreases |cs|
  {
    if |cs| > 0 {
      var blocks := BlockTexts(cs);
      FirstBlock(cs, autoList);
      var iface := ParseBlock(blocks[0], autoList).value;
      ParseBlocksCons(acc, blocks, autoList);
      AllPortableTail(cs);
      BlockTextsTail(cs);
      ParseBlocksSaved(acc + [iface], cs[1..], autoList);
      var v := ParseBlocks(acc + [iface], BlockTexts(cs[1..]), autoList).value;
      RestoredAfter(acc, iface, v, cs, autoList);
    } else {
      assert acc[..|acc|] == acc;
    }
  }

  // ---------------------------------------------------------------------
  // The round trip

  /** Portable ifaces pass every check of `save`. */
  lemma PortableComplete(cs: seq<IfaceConfig>)
    requires AllPortable(cs)
    ensures AllComplete(cs)
  {
    forall k | 0 <= k < |cs| ensures Complete(cs[k]) {
      var s := Bucket(cs[k]);
      forall i | 0 <= i < |s| ensures !Falsy(s[i].1) {
      }
    }
  }

  /**
   * Saving a configuration whose names and values survive the trip, then
   * parsing the saved text, gives back the coerced `auto` list and, iface by
   * iface, the device, the mode, the `auto` flag and the settings.
   */
  lemma SaveThenParse(auto: AutoField, iface: IfaceField)
    requires |CoerceAuto(auto)| > 0 && AllWords(CoerceAuto(auto))
    requires CoerceIface(iface).Some? && |CoerceIface(iface).value| > 0
    requires AllPortable(CoerceIface(iface).value)
    ensures Saved(auto, iface).Ok?
    ensures var doc := Parsed(Saved(auto, iface).value);
      var cs := CoerceIface(iface).value;
      && doc.Ok? && doc.value.auto == CoerceAuto(auto) && |doc.value.ifaces| == |cs|
      && forall k :: 0 <= k < |cs| ==> Restored(doc.value.ifaces[k], cs[k], CoerceAuto(auto))
  {
    var autoList := CoerceAuto(auto);
    var cs := CoerceIface(iface).value;
    PortableComplete(cs);
    SaveAccepts(auto, iface);
    var text := Saved(auto, iface).value;
    assert text == Header + CRLF + AutoRow(autoList) + CRLF + BlocksText(cs);
    NormalizedSaved(autoList, cs);
    var n := Header + CRLF + (AutoRow(autoList) + CRLF + Emit(cs));
    AutoGroupSaved(autoList, Emit(cs));
    AutoListBack(autoList);
    BlocksSaved(autoList, cs);
    ParseBlocksSaved([], cs, autoList);
    var r := ParseBlocks([], BlockTexts(cs), autoList);
    assert r.value[0..] == r.value;
    assert ParseText(n) == Ok(Document(autoList, r.value));
  }

  /**
   * An empty iface array is truthy, so `save` accepts it and writes only the
   * header and the `auto` line; `parse` of that text then finds no stanza and
   * fails on `null.forEach`.
   */
  lemma SaveEmptyThenParse(auto: AutoField)
    requires |CoerceAuto(auto)| > 0 && AllWords(CoerceAuto(auto))
    ensures Saved(auto, IfaceArray([])) == Ok(Header + CRLF + AutoRow(CoerceAuto(auto)) + CRLF)
    ensures Parsed(Saved(auto, IfaceArray([])).value) == Err(NotAnObject)
  {
    var autoList := CoerceAuto(auto);
    var cs: seq<IfaceConfig> := [];
    assert AllComplete(cs);
    SaveAccepts(auto, IfaceArray(cs));
    assert BlocksText(cs) == "";
    assert Header + CRLF + AutoRow(autoList) + CRLF + BlocksText(cs) == Header + CRLF + AutoRow(autoList) + CRLF;
    NormalizedSaved(autoList, cs);
    var n := Header + CRLF + (AutoRow(autoList) + CRLF + Emit(cs));
    AutoGroupSaved(autoList, Emit(cs));
    BlocksSaved(autoList, cs);
    assert Blocks(n, 0) == [];
    assert ParseText(n) == Err(NotAnObject);
  }
}
