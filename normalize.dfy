/**
 * `normalize` (lib/networking.js:22-46): the line scanner that prepares the
 * interfaces file text for the two regular-expression matches of `parse`.
 * It removes every tab, splits on line feeds, drops empty pieces, trims each
 * line, puts a `#` sentinel line in front of every `iface` line whose raw
 * predecessor exists and does not start with `#`, appends a final `#` line
 * and joins everything with CRLF.
 */
module Normalization {
  import opened Wrappers
  import opened Strings

  const Hashtag: string := "#"

  /** The raw lines the loop walks: tabs removed, split on `\n`, empty pieces dropped. */
  function RawLines(interfaces: string): seq<string>
  {
    NonEmpty(SplitSep(RemoveAll(interfaces, '\t'), "\n"))
  }

  /** `line.startsWith('iface') && prevLine && !prevLine.startsWith('#')` */
  predicate NeedsSentinel(prev: Option<string>, line: string)
  {
    && StartsWith(Trim(line), "iface")
    && prev.Some? && prev.value != ""
    && !StartsWith(prev.value, Hashtag)
  }

  /** The lines pushed for one raw line, given the raw line before it (None for the first). */
  function Emitted(prev: Option<string>, line: string): seq<string>
  {
    (if NeedsSentinel(prev, line) then [Hashtag] else []) + [Trim(line)]
  }

  /** The lines pushed for `lines`, the raw line before them being `prev`. */
  function Norm(prev: Option<string>, lines: seq<string>): seq<string>
    decreases |lines|
  {
    if |lines| == 0 then []
    else Emitted(prev, lines[0]) + Norm(Some(lines[0]), lines[1..])
  }

  /** The raw line before whatever follows `lines`. */
  function LastOr(prev: Option<string>, lines: seq<string>): Option<string>
  {
    if |lines| == 0 then prev else Some(lines[|lines| - 1])
  }

  /** The normalized lines, the final sentinel included. */
  function NormalizedLines(interfaces: string): seq<string>
  {
    Norm(None, RawLines(interfaces)) + [Hashtag]
  }

  /** The normalized text. */
  function Normalized(interfaces: string): string
  {
    Join(NormalizedLines(interfaces), CRLF)
  }

  /** The loop of lib/networking.js:28-37, then the final sentinel and the join. */
  method Normalize(interfaces: string) returns (normalized: string)
    ensures normalized == Normalized(interfaces)
  {
    var splitted := RawLines(interfaces);
    var lines: seq<string> := [];
    var i := 0;
    while i < |splitted|
      invariant 0 <= i <= |splitted|
      invariant lines == Norm(None, splitted[..i])
    {
      ghost var before := lines;
      var line := Trim(splitted[i]);
      var prevLine: Option<string> := if i > 0 then Some(splitted[i - 1]) else None;
      if NeedsSentinel(prevLine, splitted[i]) {
        lines := lines + [Hashtag];
      }
      lines := lines + [line];
      assert lines == before + Emitted(prevLine, splitted[i]);
      NormStep(splitted, i);
      i := i + 1;
    }
    assert splitted[..i] == splitted;
    lines := lines + [Hashtag];
    normalized := Join(lines, CRLF);
  }

  // ---------------------------------------------------------------------
  // Lemmas

  /** One more raw line adds what is pushed for it, given the raw line before it. */
  lemma NormStep(lines: seq<string>, i: nat)
    requires i < |lines|
    ensures Norm(None, lines[..i + 1])
      == Norm(None, lines[..i]) + Emitted(if i > 0 then Some(lines[i - 1]) else None, lines[i])
  {
    NormAppend(None, lines[..i], [lines[i]]);
    assert lines[..i + 1] == lines[..i] + [lines[i]];
    var prev := LastOr(None, lines[..i]);
    assert Norm(Some(lines[i]), []) == [];
    assert Norm(prev, [lines[i]]) == Emitted(prev, lines[i]) + [];
  }

  /** The scan is compositional: the second part only sees the last raw line of the first. */
  lemma {:induction false} NormAppend(prev: Option<string>, a: seq<string>, b: seq<string>)
    ensures Norm(prev, a + b) == Norm(prev, a) + Norm(LastOr(prev, a), b)
    decreases |a|
  {
    if |a| == 0 {
      assert a + b == b;
    } else {
      assert (a + b)[1..] == a[1..] + b;
      NormAppend(Some(a[0]), a[1..], b);
      assert LastOr(Some(a[0]), a[1..]) == LastOr(prev, a);
    }
  }

  /**
   * Raw line `i` contributes, at its place in the output, a sentinel exactly
   * when it starts with `iface` and has a raw predecessor not starting with `#`,
   * followed by the line trimmed; so the first line never gets one.
   */
  lemma {:induction false} NormAt(lines: seq<string>, i: nat)
    requires i < |lines|
    ensures Norm(None, lines) ==
      Norm(None, lines[..i])
      + (Emitted(if i == 0 then None else Some(lines[i - 1]), lines[i])
         + Norm(Some(lines[i]), lines[i + 1..]))
    ensures Emitted(if i == 0 then None else Some(lines[i - 1]), lines[i])
      == (if StartsWith(Trim(lines[i]), "iface") && i > 0 && lines[i - 1] != ""
            && !StartsWith(lines[i - 1], Hashtag)
          then [Hashtag, Trim(lines[i])] else [Trim(lines[i])])
  {
    var before, after := lines[..i], lines[i..];
    assert lines == before + after;
    NormAppend(None, before, after);
    assert LastOr(None, before) == if i == 0 then None else Some(lines[i - 1]);
    assert after[0] == lines[i] && after[1..] == lines[i + 1..];
    assert Norm(LastOr(None, before), after)
      == Emitted(LastOr(None, before), lines[i]) + Norm(Some(lines[i]), lines[i + 1..]);
  }

  /** Every emitted line is trimmed and free of tabs and line feeds when the raw lines are. */
  lemma {:induction false} NormClean(prev: Option<string>, lines: seq<string>)
    requires forall k :: 0 <= k < |lines| ==> '\t' !in lines[k] && '\n' !in lines[k]
    ensures forall j :: 0 <= j < |Norm(prev, lines)| ==>
      var l := Norm(prev, lines)[j]; '\t' !in l && '\n' !in l && IsTrimmed(l)
    decreases |lines|
  {
    if |lines| > 0 {
      NormClean(Some(lines[0]), lines[1..]);
      TrimChars(lines[0]);
      var e := Emitted(prev, lines[0]);
      assert forall j :: 0 <= j < |e| ==> e[j] == Hashtag || e[j] == Trim(lines[0]);
    }
  }

  /**
   * The normalized text splits on CRLF back into its lines; the last one is the
   * `#` sentinel, and none holds a tab or a line feed or untrimmed ends.
   */
  lemma NormalizedShape(interfaces: string)
    ensures var lines := NormalizedLines(interfaces);
      && |lines| >= 1 && lines[|lines| - 1] == Hashtag
      && (forall j :: 0 <= j < |lines| ==>
            '\t' !in lines[j] && '\n' !in lines[j] && IsTrimmed(lines[j]))
      && SplitSep(Normalized(interfaces), CRLF) == lines
  {
    var untabbed := RemoveAll(interfaces, '\t');
    var pieces := SplitSep(untabbed, "\n");
    var raw := RawLines(interfaces);
    assert forall k :: 0 <= k < |pieces| ==> '\t' !in pieces[k];
    NormClean(None, raw);
    var lines := NormalizedLines(interfaces);
    assert forall j :: 0 <= j < |lines| ==> '\n' !in lines[j] by {
      forall j | 0 <= j < |lines| ensures '\n' !in lines[j] {
        if j < |lines| - 1 {
          assert lines[j] == Norm(None, raw)[j];
        }
      }
    }
    SplitJoin(lines, CRLF);
  }

  /**
   * Every `iface` line of the output except a leading one is directly preceded
   * by a line starting with `#`: the stanza-boundary guarantee `parse` relies on.
   */
  lemma IfaceLinesGuarded(interfaces: string)
    ensures var lines := NormalizedLines(interfaces);
      forall j :: 0 < j < |lines| && StartsWith(lines[j], "iface") ==>
        StartsWith(lines[j - 1], Hashtag)
  {
    var raw := RawLines(interfaces);
    NormGuarded(None, raw);
    var lines := NormalizedLines(interfaces);
    forall j | 0 < j < |lines| && StartsWith(lines[j], "iface")
      ensures StartsWith(lines[j - 1], Hashtag)
    {
      if j < |lines| - 1 {
        assert lines[j] == Norm(None, raw)[j] && lines[j - 1] == Norm(None, raw)[j - 1];
      }
    }
  }

  /** The guarantee of IfaceLinesGuarded for any starting predecessor. */
  lemma {:induction false} NormGuarded(prev: Option<string>, lines: seq<string>)
    requires forall k :: 0 <= k < |lines| ==> lines[k] != ""
    requires prev.Some? ==> prev.value != ""
    ensures |Norm(prev, lines)| > 0 && StartsWith(Norm(prev, lines)[0], "iface") ==>
      prev.None? || StartsWith(prev.value, Hashtag)
    ensures forall j :: 0 < j < |Norm(prev, lines)| && StartsWith(Norm(prev, lines)[j], "iface") ==>
      StartsWith(Norm(prev, lines)[j - 1], Hashtag)
    decreases |lines|
  {
    if |lines| > 0 {
      var e := Emitted(prev, lines[0]);
      var rest := Norm(Some(lines[0]), lines[1..]);
      NormGuarded(Some(lines[0]), lines[1..]);
      var out := Norm(prev, lines);
      assert out == e + rest;
      assert !StartsWith(Hashtag, "iface");
      assert |e| >= 1 && out[|e| - 1] == Trim(lines[0]);
      assert NeedsSentinel(prev, lines[0]) ==> |e| == 2 && out[0] == Hashtag;
      assert !NeedsSentinel(prev, lines[0]) ==> |e| == 1;
      assert StartsWith(lines[0], Hashtag) ==> StartsWith(Trim(lines[0]), Hashtag) by {
        if StartsWith(lines[0], Hashtag) {
          TrimKeepsPrefix(lines[0], Hashtag);
        }
      }
      forall j | 0 < j < |out| && StartsWith(out[j], "iface")
        ensures StartsWith(out[j - 1], Hashtag)
      {
        if j > |e| {
          var j' := j - |e|;
          assert out[j] == rest[j'] && out[j - 1] == rest[j' - 1];
          assert StartsWith(rest[j'], "iface");
          assert StartsWith(rest[j' - 1], Hashtag);
        } else if j == |e| {
          assert out[j] == rest[0];
          assert StartsWith(rest[0], "iface");
          assert StartsWith(lines[0], Hashtag);
          assert out[j - 1] == Trim(lines[0]);
          assert StartsWith(out[j - 1], Hashtag);
        } else if j == 1 {
          assert out[0] == Hashtag;
          assert StartsWith(out[j - 1], Hashtag);
        }
      }
    }
  }
}
