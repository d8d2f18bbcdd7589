/**
 * How the two regular-expression scans of `parse` behave on text built
 * line by line: a scan resumed after a line break sees only the text that
 * follows it, a line that starts neither with `auto` nor with `iface` is
 * passed over, and an `iface` stanza is cut at the next `#`.
 */
module Scanning {
  import opened Wrappers
  import opened Strings
  import opened Parse

  /** No line terminator anywhere in `s`. */
  predicate NoTerminator(s: string)
  {
    forall i :: 0 <= i < |s| ==> !IsLineTerminator(s[i])
  }

  /** `x` is empty or ends with a line terminator, so a line starts right after it. */
  predicate EndsLine(x: string)
  {
    |x| == 0 || IsLineTerminator(x[|x| - 1])
  }

  /** A line start after a line break is a line start of the rest. */
  lemma LineStartShift(x: string, y: string, q: nat)
    requires EndsLine(x) && q <= |y|
    ensures LineStart(x + y, |x| + q) == LineStart(y, q)
  {
    if q > 0 {
      assert (x + y)[|x| + q - 1] == y[q - 1];
    }
  }

  /** `^auto(.+)$` matches after a line break where it matches in the rest. */
  lemma AutoAtShift(x: string, y: string, q: nat)
    requires EndsLine(x)
    ensures AutoAt(x + y, |x| + q) == AutoAt(y, q)
  {
    if q + 4 < |y| {
      LineStartShift(x, y, q);
      assert (x + y)[|x| + q..|x| + q + 4] == y[q..q + 4];
      assert (x + y)[|x| + q + 4] == y[q + 4];
    }
  }

  /** `^iface` matches after a line break where it matches in the rest. */
  lemma IfaceAtShift(x: string, y: string, q: nat)
    requires EndsLine(x)
    ensures IfaceAt(x + y, |x| + q) == IfaceAt(y, q)
  {
    if q + 5 <= |y| {
      LineStartShift(x, y, q);
      assert (x + y)[|x| + q..|x| + q + 5] == y[q..q + 5];
    }
  }

  /** The end of a line lies in the text after the prefix when the line does. */
  lemma {:induction false} LineEndShift(x: string, y: string, q: nat)
    requires q <= |y|
    ensures LineEnd(x + y, |x| + q) == |x| + LineEnd(y, q)
    decreases |y| - q
  {
    if q < |y| {
      assert (x + y)[|x| + q] == y[q];
      if !IsLineTerminator(y[q]) {
        LineEndShift(x, y, q + 1);
      }
    }
  }

  /** The `auto` scan resumed after a line break finds, shifted, what it finds in the rest. */
  lemma {:induction false} FindAutoShift(x: string, y: string, q: nat)
    requires EndsLine(x)
    ensures FindAuto(x + y, |x| + q) ==
      match FindAuto(y, q)
      case None => None
      case Some(p) => Some(|x| + p)
    decreases |y| - q
  {
    if q < |y| {
      AutoAtShift(x, y, q);
      if !AutoAt(y, q) {
        FindAutoShift(x, y, q + 1);
      }
    }
  }

  /** The `#` search after a prefix finds, shifted, what it finds in the rest. */
  lemma {:induction false} FindHashShift(x: string, y: string, q: nat)
    ensures FindHash(x + y, |x| + q) ==
      match FindHash(y, q)
      case None => None
      case Some(p) => Some(|x| + p)
    decreases |y| - q
  {
    if q < |y| {
      assert (x + y)[|x| + q] == y[q];
      if y[q] != '#' {
        FindHashShift(x, y, q + 1);
      }
    }
  }

  /** The stanza scan resumed after a line break returns the stanzas of the rest. */
  lemma {:induction false} BlocksShift(x: string, y: string, q: nat)
    requires EndsLine(x)
    ensures Blocks(x + y, |x| + q) == Blocks(y, q)
    decreases |y| - q
  {
    if q < |y| {
      IfaceAtShift(x, y, q);
      if IfaceAt(y, q) {
        FindHashShift(x, y, q + 5);
        match FindHash(y, q + 5)
        case None =>
        case Some(e) =>
          assert (x + y)[|x| + q..|x| + e] == y[q..e];
          BlocksShift(x, y, e);
      } else {
        BlocksShift(x, y, q + 1);
      }
    }
  }

  /** Positions where `^auto(.+)$` does not match are passed over. */
  lemma {:induction false} FindAutoSkip(t: string, p: nat, q: nat)
    requires p <= q
    requires forall r :: p <= r < q ==> !AutoAt(t, r)
    ensures FindAuto(t, p) == FindAuto(t, q)
    decreases q - p
  {
    if p < q && p < |t| {
      FindAutoSkip(t, p + 1, q);
    }
  }

  /** Positions where `^iface` does not match are passed over. */
  lemma {:induction false} BlocksSkip(t: string, p: nat, q: nat)
    requires p <= q
    requires forall r :: p <= r < q ==> !IfaceAt(t, r)
    ensures Blocks(t, p) == Blocks(t, q)
    decreases q - p
  {
    if p < q && p < |t| {
      BlocksSkip(t, p + 1, q);
    }
  }

  /** In a line followed by CRLF, only the line's first character starts a line. */
  lemma LineStarts(l: string, rest: string, r: nat)
    requires NoTerminator(l) && r < |l| + 2
    ensures LineStart(l + CRLF + rest, r) ==> r == 0 || r == |l| + 1
    ensures r == |l| + 1 ==> (l + CRLF + rest)[r] == '\n'
    ensures r == |l| ==> (l + CRLF + rest)[r] == '\r'
  {
    var t := l + CRLF + rest;
    if 0 < r <= |l| {
      assert t[r - 1] == l[r - 1];
    }
  }

  /** In a line followed by CRLF, `^iface` can match only at the line's start, and only if the line starts with `iface`. */
  lemma NoIfaceInLine(l: string, rest: string, r: nat)
    requires NoTerminator(l) && !StartsWith(l, "iface") && r < |l| + 2
    ensures !IfaceAt(l + CRLF + rest, r)
  {
    var t := l + CRLF + rest;
    LineStarts(l, rest, r);
    if r == 0 && |t| >= 5 {
      if |l| >= 5 {
        assert t[..5] == l[..5];
      } else {
        assert t[|l|] == '\r';
        assert t[..5][|l|] == '\r';
      }
    }
  }

  /** In a line followed by CRLF, `^auto(.+)$` can match only at the line's start, and only on `auto<more>`. */
  lemma NoAutoInLine(l: string, rest: string, r: nat)
    requires NoTerminator(l) && !(|l| > 4 && StartsWith(l, "auto")) && r < |l| + 2
    ensures !AutoAt(l + CRLF + rest, r)
  {
    var t := l + CRLF + rest;
    LineStarts(l, rest, r);
    if r == 0 && |t| > 4 {
      if |l| > 4 {
        assert t[0..4] == l[..4];
      } else if |l| == 4 {
        assert t[4] == '\r';
      } else {
        assert t[|l|] == '\r';
        assert t[0..4][|l|] == '\r';
      }
    }
  }

  /** A line not starting with `iface` is skipped by the stanza scan. */
  lemma SkipLineBlocks(l: string, rest: string)
    requires NoTerminator(l) && !StartsWith(l, "iface")
    ensures Blocks(l + CRLF + rest, 0) == Blocks(rest, 0)
  {
    var x := l + CRLF;
    var t := x + rest;
    assert t == l + CRLF + rest;
    forall r | 0 <= r < |x| ensures !IfaceAt(t, r) {
      NoIfaceInLine(l, rest, r);
    }
    BlocksSkip(t, 0, |x|);
    BlocksShift(x, rest, 0);
  }

  /** A line other than `auto<more>` is skipped by the `auto` scan. */
  lemma SkipLineAuto(l: string, rest: string)
    requires NoTerminator(l) && !(|l| > 4 && StartsWith(l, "auto"))
    ensures AutoGroup(l + CRLF + rest) == AutoGroup(rest)
  {
    var x := l + CRLF;
    assert x + rest == l + CRLF + rest;
    SkipLineFind(l, rest);
    AutoGroupShift(x, rest);
  }

  /** The `auto` scan passes over a line other than `auto<more>`. */
  lemma SkipLineFind(l: string, rest: string)
    requires NoTerminator(l) && !(|l| > 4 && StartsWith(l, "auto"))
    ensures FindAuto(l + CRLF + rest, 0) == FindAuto(l + CRLF + rest, |l| + 2)
  {
    var t := l + CRLF + rest;
    forall r | 0 <= r < |l| + 2 ensures !AutoAt(t, r) {
      NoAutoInLine(l, rest, r);
    }
    FindAutoSkip(t, 0, |l| + 2);
  }

  /** When the `auto` scan of the whole text reaches the rest unmatched, it captures what the rest captures. */
  lemma AutoGroupShift(x: string, rest: string)
    requires EndsLine(x)
    requires FindAuto(x + rest, 0) == FindAuto(x + rest, |x|)
    ensures AutoGroup(x + rest) == AutoGroup(rest)
  {
    FindAutoShift(x, rest, 0);
    assert |x| + 0 == |x|;
    match FindAuto(rest, 0)
    case None =>
    case Some(p) =>
      GroupShift(x, rest, p + 4);
  }

  /** The rest of a line of the rest is the rest of the same line of the whole text. */
  lemma GroupShift(x: string, rest: string, q: nat)
    requires q <= |rest|
    ensures (x + rest)[|x| + q..LineEnd(x + rest, |x| + q)] == rest[q..LineEnd(rest, q)]
  {
    LineEndShift(x, rest, q);
    SliceShift(x, rest, q, LineEnd(rest, q));
  }

  /** A slice of the rest is the shifted slice of the whole text. */
  lemma SliceShift(x: string, y: string, i: nat, j: nat)
    requires i <= j <= |y|
    ensures (x + y)[|x| + i..|x| + j] == y[i..j]
  {
  }

  /** A first line `auto<more>` is what `^auto(.+)$` captures, its group being the rest of the line. */
  lemma AutoHere(a: string, rest: string)
    requires NoTerminator(a) && |a| > 4 && StartsWith(a, "auto")
    ensures AutoGroup(a + CRLF + rest) == Some(a[4..])
  {
    var t := a + CRLF + rest;
    assert t[0..4] == a[..4];
    assert t[4] == a[4];
    assert AutoAt(t, 0);
    LineEndFirst(t, 4);
    var e := LineEnd(t, 4);
    assert t[|a|] == '\r';
    assert t[4..|a|] == a[4..];
  }

  /**
   * A stanza that starts with `iface`, holds no `#` and ends a line, followed
   * by text starting with `#`, is matched exactly, and the scan resumes at the `#`.
   */
  lemma BlockHere(x: string, y: string)
    requires StartsWith(x, "iface") && '#' !in x && EndsLine(x)
    requires |y| > 0 && y[0] == '#'
    ensures Blocks(x + y, 0) == [x] + Blocks(y, 0)
  {
    var t := x + y;
    assert t[0..5] == x[..5];
    assert IfaceAt(t, 0);
    FindHashFirst(t, 5);
    var h := FindHash(t, 5);
    assert t[|x|] == '#';
    assert h.Some? && h.value == |x|;
    assert t[0..|x|] == x;
    BlocksShift(x, y, 0);
  }
}
