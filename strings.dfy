/**
 * The JavaScript string built-ins the codec relies on: `startsWith`,
 * `includes`, `trim`, `split` (by a string and by the class `\s`),
 * `filter(l => l)`, `join` and the global removal of one character.
 */
module Strings {

  const CRLF: string := "\r\n"

  /** ECMAScript LineTerminator: where `^`/`$` match in multiline mode and what `.` refuses. */
  predicate IsLineTerminator(c: char)
  {
    c == '\n' || c == '\r' || c == '\U{2028}' || c == '\U{2029}'
  }

  /** ECMAScript WhiteSpace or LineTerminator: the class `\s`, and what `trim` removes. */
  predicate IsSpace(c: char)
  {
    || IsLineTerminator(c)
    || c == ' ' || c == '\t' || c == '\U{000B}' || c == '\U{000C}'
    || c == '\U{00A0}' || c == '\U{1680}' || ('\U{2000}' <= c <= '\U{200A}')
    || c == '\U{202F}' || c == '\U{205F}' || c == '\U{3000}' || c == '\U{FEFF}'
  }

  /** No `\s` character anywhere in `s`. */
  predicate NoSpace(s: string)
  {
    forall i :: 0 <= i < |s| ==> !IsSpace(s[i])
  }

  /** `s.startsWith(prefix)` */
  predicate StartsWith(s: string, prefix: string)
  {
    |prefix| <= |s| && s[..|prefix|] == prefix
  }

  /** `part` occurs in `s` starting at index `i`. */
  predicate OccursAt(s: string, part: string, i: int)
  {
    0 <= i <= |s| - |part| && s[i..i + |part|] == part
  }

  /** `s.includes(part)`: `part` occurs somewhere in `s`. */
  function Includes(s: string, part: string): (b: bool)
    ensures b <==> exists i :: OccursAt(s, part, i)
    decreases |s|
  {
    if StartsWith(s, part) then
      assert OccursAt(s, part, 0);
      true
    else if |s| == 0 then
      false
    else
      var b := Includes(s[1..], part);
      assert forall i :: OccursAt(s[1..], part, i) <==> OccursAt(s, part, i + 1) by {
        forall i ensures OccursAt(s[1..], part, i) <==> OccursAt(s, part, i + 1) {
          if 0 <= i <= |s| - 1 - |part| {
            assert s[1..][i..i + |part|] == s[i + 1..i + 1 + |part|];
          }
        }
      }
      assert !OccursAt(s, part, 0);
      assert (exists i :: OccursAt(s, part, i)) ==> b by {
        if exists i :: OccursAt(s, part, i) {
          var i :| OccursAt(s, part, i);
          assert OccursAt(s[1..], part, i - 1);
        }
      }
      b
  }

  /** `s.replace(/c/g, '')`: every occurrence of `c` removed. */
  function RemoveAll(s: string, c: char): (r: string)
    ensures c !in r
    ensures forall x :: x in r ==> x in s
  {
    if |s| == 0 then "" else (if s[0] == c then "" else [s[0]]) + RemoveAll(s[1..], c)
  }

  /** Leading `\s` characters removed. */
  function TrimStart(s: string): (r: string)
    ensures |r| <= |s|
    ensures r == [] || !IsSpace(r[0])
  {
    if |s| > 0 && IsSpace(s[0]) then TrimStart(s[1..]) else s
  }

  /** Trailing `\s` characters removed. */
  function TrimEnd(s: string): (r: string)
    ensures |r| <= |s|
    ensures r == [] || !IsSpace(r[|r| - 1])
  {
    if |s| > 0 && IsSpace(s[|s| - 1]) then TrimEnd(s[..|s| - 1]) else s
  }

  /** Neither end of `s` is a `\s` character. */
  predicate IsTrimmed(s: string)
  {
    s == [] || (!IsSpace(s[0]) && !IsSpace(s[|s| - 1]))
  }

  /** `s.trim()` */
  function Trim(s: string): (r: string)
    ensures IsTrimmed(r)
  {
    var t := TrimStart(s);
    TrimEndPrefix(t);
    TrimEnd(t)
  }

  /** TrimStart removes a prefix of `\s` characters and nothing else. */
  lemma {:induction false} TrimStartSuffix(s: string)
    ensures TrimStart(s) == s[|s| - |TrimStart(s)|..]
    ensures forall i :: 0 <= i < |s| - |TrimStart(s)| ==> IsSpace(s[i])
    decreases |s|
  {
    if |s| > 0 && IsSpace(s[0]) {
      TrimStartSuffix(s[1..]);
      assert s[1..][|s| - 1 - |TrimStart(s)|..] == s[|s| - |TrimStart(s)|..];
      forall i | 1 <= i < |s| - |TrimStart(s)| ensures IsSpace(s[i]) {
        assert s[1..][i - 1] == s[i];
      }
    }
  }

  /** TrimEnd removes a suffix of `\s` characters and nothing else. */
  lemma {:induction false} TrimEndPrefix(s: string)
    ensures TrimEnd(s) == s[..|TrimEnd(s)|]
    ensures forall i :: |TrimEnd(s)| <= i < |s| ==> IsSpace(s[i])
    decreases |s|
  {
    if |s| > 0 && IsSpace(s[|s| - 1]) {
      TrimEndPrefix(s[..|s| - 1]);
      assert s[..|s| - 1][..|TrimEnd(s)|] == s[..|TrimEnd(s)|];
    }
  }

  /** Trimming keeps only characters of the original. */
  lemma TrimChars(s: string)
    ensures forall x :: x in Trim(s) ==> x in s
  {
    TrimStartSuffix(s);
    var t := TrimStart(s);
    TrimEndPrefix(t);
    assert forall x :: x in t ==> x in s;
  }

  /** `parts.join(sep)` */
  function Join(parts: seq<string>, sep: string): string
  {
    if |parts| == 0 then ""
    else if |parts| == 1 then parts[0]
    else parts[0] + sep + Join(parts[1..], sep)
  }

  /**
   * `s.split(sep)` for a non-empty separator: the pieces between the
   * occurrences of `sep`, found from the left without overlap.
   */
  function SplitSep(s: string, sep: string): (r: seq<string>)
    requires |sep| > 0
    ensures |r| >= 1
    ensures |sep| == 1 ==> forall k :: 0 <= k < |r| ==> sep[0] !in r[k]
    ensures forall k, x :: 0 <= k < |r| && x in r[k] ==> x in s
    decreases |s|
  {
    if |s| < |sep| then
      assert |sep| == 1 ==> s == [];
      [s]
    else if s[..|sep|] == sep then
      assert forall x :: x in s[|sep|..] ==> x in s;
      [""] + SplitSep(s[|sep|..], sep)
    else
      var t := SplitSep(s[1..], sep);
      assert |sep| == 1 ==> s[0] != sep[0] by {
        if |sep| == 1 { assert s[..1] == [s[0]]; }
      }
      assert forall x :: x in s[1..] ==> x in s;
      assert forall x :: x in [s[0]] + t[0] ==> x == s[0] || x in t[0];
      [[s[0]] + t[0]] + t[1..]
  }

  /** `s.split(/\s/)`: the pieces between single `\s` characters (empty pieces kept). */
  function SplitSpace(s: string): (r: seq<string>)
    ensures |r| >= 1
    ensures forall k :: 0 <= k < |r| ==> NoSpace(r[k])
  {
    if |s| == 0 then [""]
    else if IsSpace(s[0]) then [""] + SplitSpace(s[1..])
    else
      var t := SplitSpace(s[1..]);
      [[s[0]] + t[0]] + t[1..]
  }

  /** `parts.filter(l => l)`: the non-empty pieces, in order. */
  function NonEmpty(parts: seq<string>): (r: seq<string>)
    ensures forall k :: 0 <= k < |r| ==> r[k] != ""
    ensures forall k :: 0 <= k < |r| ==> r[k] in parts
    ensures |r| <= |parts|
  {
    if |parts| == 0 then []
    else (if parts[0] == "" then [] else [parts[0]]) + NonEmpty(parts[1..])
  }

  // ---------------------------------------------------------------------
  // Lemmas

  /** Joining two non-empty lists puts exactly one separator between them. */
  lemma {:induction false} JoinAppend(a: seq<string>, b: seq<string>, sep: string)
    requires |a| > 0 && |b| > 0
    ensures Join(a + b, sep) == Join(a, sep) + sep + Join(b, sep)
    decreases |a|
  {
    if |a| == 1 {
      assert a + b == [a[0]] + b;
      assert (a + b)[1..] == b;
    } else {
      assert (a + b)[1..] == a[1..] + b;
      JoinAppend(a[1..], b, sep);
    }
  }

  /** Prepending a character to the first piece prepends it to the joined text. */
  lemma JoinConsFirst(c: char, t: seq<string>, sep: string)
    requires |t| >= 1
    ensures Join([[c] + t[0]] + t[1..], sep) == [c] + Join(t, sep)
  {
    var u := [[c] + t[0]] + t[1..];
    if |t| > 1 {
      assert u[1..] == t[1..];
    }
  }

  /** `s.split(sep).join(sep) == s`: splitting loses nothing. */
  lemma {:induction false} JoinSplit(s: string, sep: string)
    requires |sep| > 0
    ensures Join(SplitSep(s, sep), sep) == s
    decreases |s|
  {
    if |s| < |sep| {
    } else if s[..|sep|] == sep {
      JoinSplit(s[|sep|..], sep);
      var t := SplitSep(s[|sep|..], sep);
      assert ([""] + t)[1..] == t;
      assert s == sep + s[|sep|..];
    } else {
      JoinSplit(s[1..], sep);
      JoinConsFirst(s[0], SplitSep(s[1..], sep), sep);
      assert s == [s[0]] + s[1..];
    }
  }

  /** The last character of `sep` occurs in it only at the end (true of "\n" and "\r\n"). */
  predicate EndMarked(sep: string)
  {
    |sep| > 0 && sep[|sep| - 1] !in sep[..|sep| - 1]
  }

  /** A piece free of `sep`'s last character, followed by `sep`, is split off exactly. */
  lemma {:induction false} SplitPieceSep(l: string, sep: string, t: string)
    requires EndMarked(sep) && sep[|sep| - 1] !in l
    ensures SplitSep(l + sep + t, sep) == [l] + SplitSep(t, sep)
    decreases |l|
  {
    var s := l + sep + t;
    if |l| == 0 {
      assert s[..|sep|] == sep;
      assert s[|sep|..] == t;
    } else {
      assert s[|sep| - 1] != sep[|sep| - 1] by {
        if |sep| - 1 < |l| {
          assert s[|sep| - 1] == l[|sep| - 1];
        } else {
          assert s[|sep| - 1] == sep[|sep| - 1 - |l|];
          assert sep[|sep| - 1 - |l|] in sep[..|sep| - 1];
        }
      }
      assert s[..|sep|] != sep;
      assert s[1..] == l[1..] + sep + t;
      SplitPieceSep(l[1..], sep, t);
      assert [s[0]] + l[1..] == l;
    }
  }

  /** A piece free of `sep`'s last character is not split at all. */
  lemma {:induction false} SplitPieceAlone(l: string, sep: string)
    requires EndMarked(sep) && sep[|sep| - 1] !in l
    ensures SplitSep(l, sep) == [l]
    decreases |l|
  {
    if |l| >= |sep| {
      assert l[..|sep|] != sep by {
        assert l[|sep| - 1] in l;
      }
      SplitPieceAlone(l[1..], sep);
      assert [l[0]] + l[1..] == l;
    }
  }

  /** `parts.join(sep).split(sep) == parts` when no part holds `sep`'s last character. */
  lemma {:induction false} SplitJoin(parts: seq<string>, sep: string)
    requires |parts| >= 1 && EndMarked(sep)
    requires forall k :: 0 <= k < |parts| ==> sep[|sep| - 1] !in parts[k]
    ensures SplitSep(Join(parts, sep), sep) == parts
    decreases |parts|
  {
    if |parts| == 1 {
      SplitPieceAlone(parts[0], sep);
    } else {
      SplitJoin(parts[1..], sep);
      SplitPieceSep(parts[0], sep, Join(parts[1..], sep));
      assert [parts[0]] + parts[1..] == parts;
    }
  }

  /** A piece free of `sep`'s first character, followed by `sep`, is split off exactly. */
  lemma {:induction false} SplitPieceSepHead(l: string, sep: string, t: string)
    requires |sep| > 0 && sep[0] !in l
    ensures SplitSep(l + sep + t, sep) == [l] + SplitSep(t, sep)
    decreases |l|
  {
    var s := l + sep + t;
    if |l| == 0 {
      assert s[..|sep|] == sep;
      assert s[|sep|..] == t;
    } else {
      assert s[0] == l[0];
      assert s[..|sep|] != sep by {
        assert s[..|sep|][0] == l[0];
      }
      assert s[1..] == l[1..] + sep + t;
      SplitPieceSepHead(l[1..], sep, t);
      assert [s[0]] + l[1..] == l;
    }
  }

  /** A piece free of `sep`'s first character is not split at all. */
  lemma {:induction false} SplitPieceAloneHead(l: string, sep: string)
    requires |sep| > 0 && sep[0] !in l
    ensures SplitSep(l, sep) == [l]
    decreases |l|
  {
    if |l| >= |sep| {
      assert l[..|sep|] != sep by {
        assert l[..|sep|][0] == l[0];
      }
      SplitPieceAloneHead(l[1..], sep);
      assert [l[0]] + l[1..] == l;
    }
  }

  /** `parts.join(sep).split(sep) == parts` when no part holds `sep`'s first character. */
  lemma {:induction false} SplitJoinHead(parts: seq<string>, sep: string)
    requires |parts| >= 1 && |sep| > 0
    requires forall k :: 0 <= k < |parts| ==> sep[0] !in parts[k]
    ensures SplitSep(Join(parts, sep), sep) == parts
    decreases |parts|
  {
    if |parts| == 1 {
      SplitPieceAloneHead(parts[0], sep);
    } else {
      SplitJoinHead(parts[1..], sep);
      SplitPieceSepHead(parts[0], sep, Join(parts[1..], sep));
      assert [parts[0]] + parts[1..] == parts;
    }
  }

  /** `words.join(' ').split(/\s/) == words` when no word holds a `\s` character. */
  lemma {:induction false} SplitSpaceJoin(words: seq<string>)
    requires |words| >= 1
    requires forall k :: 0 <= k < |words| ==> NoSpace(words[k])
    ensures SplitSpace(Join(words, " ")) == words
    decreases |words|
  {
    if |words| == 1 {
      SplitSpaceWord(words[0], "", false);
      assert words[0] + "" == words[0];
    } else {
      SplitSpaceJoin(words[1..]);
      SplitSpaceWord(words[0], Join(words[1..], " "), true);
      assert [words[0]] + words[1..] == words;
    }
  }

  /** A word free of `\s`, then (if `spaced`) one space and `t`, splits off as one piece. */
  lemma {:induction false} SplitSpaceWord(w: string, t: string, spaced: bool)
    requires NoSpace(w)
    ensures spaced ==> SplitSpace(w + " " + t) == [w] + SplitSpace(t)
    ensures !spaced && t == "" ==> SplitSpace(w + t) == [w]
    decreases |w|
  {
    if |w| == 0 {
      if spaced {
        assert (w + " " + t)[1..] == t;
      }
    } else {
      assert NoSpace(w[1..]) by {
        forall i | 0 <= i < |w[1..]| ensures !IsSpace(w[1..][i]) {
          assert w[1..][i] == w[i + 1];
        }
      }
      SplitSpaceWord(w[1..], t, spaced);
      assert [w[0]] + w[1..] == w;
      if spaced {
        assert (w + " " + t)[1..] == w[1..] + " " + t;
      } else if t == "" {
        assert (w + t)[1..] == w[1..] + t;
      }
    }
  }

  /** Trimming a trimmed string changes nothing. */
  lemma TrimTrimmed(s: string)
    requires IsTrimmed(s)
    ensures Trim(s) == s
  {
    assert TrimStart(s) == s;
    assert TrimEnd(s) == s;
  }

  /** A trimmed line followed by a carriage return trims back to the line. */
  lemma TrimCarriageReturn(s: string)
    requires IsTrimmed(s)
    ensures Trim(s + "\r") == s
  {
    if s == [] {
      TrimLoneCarriageReturn();
      assert s + "\r" == "\r";
    } else {
      var u := s + "\r";
      assert u[0] == s[0] && !IsSpace(u[0]);
      assert TrimStart(u) == u;
      assert IsSpace(u[|u| - 1]) && u[..|u| - 1] == s;
      assert TrimEnd(u) == TrimEnd(s);
      assert !IsSpace(s[|s| - 1]);
      assert TrimEnd(s) == s;
    }
  }

  /** A lone carriage return trims to nothing. */
  lemma TrimLoneCarriageReturn()
    ensures Trim("\r") == ""
  {
    assert IsSpace("\r"[0]) && "\r"[1..] == "";
    assert TrimStart("\r") == TrimStart("");
    assert TrimEnd("") == "";
  }

  /** A string that starts with a non-space prefix still does after trimming. */
  lemma TrimKeepsPrefix(s: string, prefix: string)
    requires StartsWith(s, prefix) && |prefix| > 0 && NoSpace(prefix)
    ensures StartsWith(Trim(s), prefix)
  {
    assert !IsSpace(s[0]);
    assert TrimStart(s) == s;
    TrimEndPrefix(s);
    var r := TrimEnd(s);
    assert !IsSpace(s[|prefix| - 1]);
    assert |r| >= |prefix|;
    assert r[..|prefix|] == s[..|prefix|];
  }

  /** Dropping empty pieces keeps a list without empty pieces as it is. */
  lemma {:induction false} NonEmptyKeeps(parts: seq<string>)
    requires forall k :: 0 <= k < |parts| ==> parts[k] != ""
    ensures NonEmpty(parts) == parts
    decreases |parts|
  {
    if |parts| > 0 {
      NonEmptyKeeps(parts[1..]);
      assert [parts[0]] + parts[1..] == parts;
    }
  }

  /** Dropping empty pieces distributes over concatenation. */
  lemma {:induction false} NonEmptyAppend(a: seq<string>, b: seq<string>)
    ensures NonEmpty(a + b) == NonEmpty(a) + NonEmpty(b)
    decreases |a|
  {
    if |a| > 0 {
      assert (a + b)[1..] == a[1..] + b;
      NonEmptyAppend(a[1..], b);
    } else {
      assert a + b == b;
    }
  }

  /** Removing a character distributes over concatenation. */
  lemma {:induction false} RemoveAllAppend(a: string, b: string, c: char)
    ensures RemoveAll(a + b, c) == RemoveAll(a, c) + RemoveAll(b, c)
    decreases |a|
  {
    if |a| > 0 {
      assert (a + b)[1..] == a[1..] + b;
      RemoveAllAppend(a[1..], b, c);
    } else {
      assert a + b == b;
    }
  }

  /** Removing a character that does not occur changes nothing. */
  lemma {:induction false} RemoveAllAbsent(s: string, c: char)
    requires c !in s
    ensures RemoveAll(s, c) == s
    decreases |s|
  {
    if |s| > 0 {
      assert s[1..] == s[1..] && c !in s[1..];
      RemoveAllAbsent(s[1..], c);
      assert [s[0]] + s[1..] == s;
    }
  }

  /** Regrouping three pieces of text. */
  lemma Assoc(x: string, y: string, z: string)
    ensures x + (y + z) == x + y + z
  {
  }
}
