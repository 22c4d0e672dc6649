/** The pieces of JavaScript's `String.prototype` that the client relies on:
    `split` with a non-empty literal separator, `join`, `trim` and
    `startsWith`. Characters are compared exactly, with no normalisation. */
module JsString {
  import opened Wrappers

  /** Whitespace recognised by `trim` and `parseInt`: the ASCII whitespace,
      the no-break space, the byte-order mark and the line and paragraph
      separators. The other Unicode space separators are not included. */
  predicate IsSpace(c: char) {
    || c == ' ' || c == '\t' || c == '\n' || c == '\r' || c == '\U{B}' || c == '\U{C}'
    || c == '\U{A0}' || c == '\U{FEFF}' || c == '\U{2028}' || c == '\U{2029}'
  }

  predicate StartsWith(s: string, prefix: string) {
    |prefix| <= |s| && s[..|prefix|] == prefix
  }

  /** `pat` occurs in `s` starting at position `i`. */
  predicate MatchAt(s: string, pat: string, i: int) {
    0 <= i && i + |pat| <= |s| && s[i..i + |pat|] == pat
  }

  ghost predicate Occurs(s: string, pat: string) {
    exists i :: MatchAt(s, pat, i)
  }

  /** Number of occurrences of the character `c` in `s`. */
  function CountChar(s: string, c: char): nat {
    if |s| == 0 then 0
    else (if s[0] == c then 1 else 0) + CountChar(s[1..], c)
  }

  // ---------------------------------------------------------------------
  // Searching

  /** Position of the leftmost occurrence of `pat` in `s`, if any. */
  function FirstMatch(s: string, pat: string): (r: Option<nat>)
    requires |pat| > 0
    ensures r.Some? ==> MatchAt(s, pat, r.value)
    ensures r.Some? ==> forall j :: 0 <= j < r.value ==> !MatchAt(s, pat, j)
    ensures r.None? ==> !Occurs(s, pat)
  {
    FindFrom(s, pat, 0)
  }

  /** Leftmost occurrence of `pat` in `s` at or after position `k`. */
  function FindFrom(s: string, pat: string, k: nat): (r: Option<nat>)
    requires |pat| > 0
    ensures r.Some? ==> k <= r.value && MatchAt(s, pat, r.value)
    ensures r.Some? ==> forall j :: k <= j < r.value ==> !MatchAt(s, pat, j)
    ensures r.None? ==> forall j :: k <= j ==> !MatchAt(s, pat, j)
    decreases |s| - k
  {
    if k + |pat| > |s| then None
    else if MatchAt(s, pat, k) then Some(k)
    else FindFrom(s, pat, k + 1)
  }

  /** A leftmost match is the one `FirstMatch` reports. */
  lemma {:induction false} FirstMatchIsLeftmost(s: string, pat: string, i: nat)
    requires |pat| > 0
    requires MatchAt(s, pat, i)
    requires forall j :: 0 <= j < i ==> !MatchAt(s, pat, j)
    ensures FirstMatch(s, pat) == Some(i)
  {
  }

  /** A match inside `s[1..]` is a match inside `s` one position later. */
  lemma {:induction false} MatchShift(s: string, pat: string, j: int)
    requires |s| > 0 && 0 <= j
    ensures MatchAt(s[1..], pat, j) <==> MatchAt(s, pat, j + 1)
  {
    if 0 <= j && j + 1 + |pat| <= |s| {
      assert s[1..][j..j + |pat|] == s[j + 1..j + 1 + |pat|];
    }
  }

  // ---------------------------------------------------------------------
  // split and join

  /** `s.split(sep)`: cut `s` at every non-overlapping occurrence of `sep`,
      scanning left to right. Always yields at least one piece;
      `"".split(sep)` is `[""]`. */
  function SplitOn(s: string, sep: string): (r: seq<string>)
    requires |sep| > 0
    ensures |r| >= 1
    decreases |s|
  {
    if |s| < |sep| then [s]
    else if s[..|sep|] == sep then [""] + SplitOn(s[|sep|..], sep)
    else
      var rest := SplitOn(s[1..], sep);
      [[s[0]] + rest[0]] + rest[1..]
  }

  /** A reference reading of `split` in the words of the ECMAScript
      algorithm: find the leftmost match, emit the text before it, and
      continue after it. */
  function SplitRef(s: string, sep: string): seq<string>
    requires |sep| > 0
    decreases |s|
  {
    match FirstMatch(s, sep)
    case None => [s]
    case Some(i) => [s[..i]] + SplitRef(s[i + |sep|..], sep)
  }

  /** When `s` does not start with `pat`, its leftmost match is the one in
      `s[1..]`, one position later. */
  lemma {:induction false} FirstMatchTail(s: string, pat: string)
    requires |pat| > 0 && |s| > 0
    requires !MatchAt(s, pat, 0)
    ensures FirstMatch(s, pat) == match FirstMatch(s[1..], pat)
      case None => None
      case Some(i) => Some(i + 1)
  {
    match FirstMatch(s[1..], pat)
    case None => {
      forall j | MatchAt(s, pat, j) ensures false {
        assert j > 0;
        MatchShift(s, pat, j - 1);
      }
    }
    case Some(i) => {
      MatchShift(s, pat, i);
      forall j | 0 <= j < i + 1 ensures !MatchAt(s, pat, j) {
        if j > 0 {
          MatchShift(s, pat, j - 1);
        }
      }
      FirstMatchIsLeftmost(s, pat, i + 1);
    }
  }

  /** A first character that does not start a match joins the first piece
      of the reference split of the rest. */
  lemma {:induction false} SplitRefCons(s: string, sep: string)
    requires |sep| > 0 && |s| > 0
    requires !MatchAt(s, sep, 0)
    ensures var rest := SplitRef(s[1..], sep);
      SplitRef(s, sep) == [[s[0]] + rest[0]] + rest[1..]
  {
    var t := s[1..];
    FirstMatchTail(s, sep);
    if FirstMatch(t, sep).None? {
      SplitRefNoMatch(s, t, sep);
    } else {
      var i := FirstMatch(t, sep).value;
      assert FirstMatch(s, sep) == Some(i + 1);
      SplitRefCut(s, t, sep, i);
    }
  }

  lemma {:induction false} SplitRefNoMatch(s: string, t: string, sep: string)
    requires |sep| > 0 && |s| > 0 && t == s[1..]
    requires FirstMatch(t, sep).None? && FirstMatch(s, sep).None?
    ensures var rest := SplitRef(t, sep);
      SplitRef(s, sep) == [[s[0]] + rest[0]] + rest[1..]
  {
    assert SplitRef(t, sep) == [t];
    assert SplitRef(s, sep) == [s];
    assert s == [s[0]] + t;
  }

  lemma {:induction false} SplitRefCut(s: string, t: string, sep: string, i: nat)
    requires |sep| > 0 && |s| > 0 && t == s[1..]
    requires FirstMatch(t, sep) == Some(i) && FirstMatch(s, sep) == Some(i + 1)
    ensures var rest := SplitRef(t, sep);
      SplitRef(s, sep) == [[s[0]] + rest[0]] + rest[1..]
  {
    var u := t[i + |sep|..];
    SplitRefAt(t, sep, i);
    SplitRefAt(s, sep, i + 1);
    ShiftSlices(s, t, i, |sep|);
    var tail := SplitRef(u, sep);
    assert SplitRef(t, sep) == [t[..i]] + tail;
    assert SplitRef(s, sep) == [[s[0]] + t[..i]] + tail;
  }

  /** Slices of `s[1..]` are slices of `s` one position later. */
  lemma {:induction false} ShiftSlices(s: string, t: string, i: nat, m: nat)
    requires |s| > 0 && t == s[1..] && i + m <= |t|
    ensures s[..i + 1] == [s[0]] + t[..i]
    ensures s[i + 1 + m..] == t[i + m..]
  {
  }

  /** The reference split at its leftmost match. */
  lemma {:induction false} SplitRefAt(s: string, sep: string, i: nat)
    requires |sep| > 0 && FirstMatch(s, sep) == Some(i)
    ensures i + |sep| <= |s|
    ensures SplitRef(s, sep) == [s[..i]] + SplitRef(s[i + |sep|..], sep)
  {
  }

  /** The character-by-character `SplitOn` is the leftmost-match `SplitRef`. */
  lemma {:induction false} SplitOnIsSplitRef(s: string, sep: string)
    requires |sep| > 0
    ensures SplitOn(s, sep) == SplitRef(s, sep)
    decreases |s|
  {
    if |s| < |sep| {
      assert FirstMatch(s, sep).None?;
    } else if s[..|sep|] == sep {
      assert MatchAt(s, sep, 0);
      FirstMatchIsLeftmost(s, sep, 0);
      SplitOnIsSplitRef(s[|sep|..], sep);
    } else {
      assert !MatchAt(s, sep, 0);
      SplitOnIsSplitRef(s[1..], sep);
      SplitRefCons(s, sep);
    }
  }

  /** The first piece of a split is the text before the leftmost match; the
      remaining pieces are the split of the text after it. */
  lemma {:induction false} SplitHead(s: string, sep: string)
    requires |sep| > 0
    ensures FirstMatch(s, sep).None? ==> SplitOn(s, sep) == [s]
    ensures FirstMatch(s, sep).Some? ==>
      var i := FirstMatch(s, sep).value;
      SplitOn(s, sep) == [s[..i]] + SplitOn(s[i + |sep|..], sep)
  {
    SplitOnIsSplitRef(s, sep);
    if FirstMatch(s, sep).Some? {
      var i := FirstMatch(s, sep).value;
      SplitOnIsSplitRef(s[i + |sep|..], sep);
    }
  }

  /** A one-character pattern matches exactly where that character is. */
  lemma {:induction false} CharMatch(s: string, c: char, i: int)
    ensures MatchAt(s, [c], i) <==> 0 <= i < |s| && s[i] == c
  {
    if 0 <= i < |s| {
      assert s[i..i + 1] == [s[i]];
    }
  }

  /** `parts.join(sep)`. */
  function Join(parts: seq<string>, sep: string): string {
    if |parts| == 0 then ""
    else if |parts| == 1 then parts[0]
    else parts[0] + sep + Join(parts[1..], sep)
  }

  /** An empty first piece contributes only the separator after it. */
  lemma {:induction false} JoinEmptyHead(rest: seq<string>, sep: string)
    requires |rest| >= 1
    ensures Join([""] + rest, sep) == sep + Join(rest, sep)
  {
    var parts := [""] + rest;
    assert parts[1..] == rest;
    assert Join(parts, sep) == "" + sep + Join(rest, sep);
  }

  /** A character in front of the first piece ends up in front of the join. */
  lemma {:induction false} JoinConsHead(c: char, rest: seq<string>, sep: string)
    requires |rest| >= 1
    ensures Join([[c] + rest[0]] + rest[1..], sep) == [c] + Join(rest, sep)
  {
    var parts := [[c] + rest[0]] + rest[1..];
    if |rest| > 1 {
      assert parts[1..] == rest[1..];
      assert Join(rest, sep) == rest[0] + sep + Join(rest[1..], sep);
      assert Join(parts, sep) == ([c] + rest[0]) + sep + Join(rest[1..], sep);
    }
  }

  /** Joining the pieces of a split with the same separator gives back the
      original text. */
  lemma {:induction false} JoinSplit(s: string, sep: string)
    requires |sep| > 0
    ensures Join(SplitOn(s, sep), sep) == s
    decreases |s|
  {
    if |s| < |sep| {
    } else if s[..|sep|] == sep {
      JoinSplit(s[|sep|..], sep);
      JoinEmptyHead(SplitOn(s[|sep|..], sep), sep);
      assert s == s[..|sep|] + s[|sep|..];
    } else {
      JoinSplit(s[1..], sep);
      JoinConsHead(s[0], SplitOn(s[1..], sep), sep);
      assert s == [s[0]] + s[1..];
    }
  }

  /** Without an occurrence of the separator there is nothing to cut. */
  lemma {:induction false} SplitWithoutSeparator(s: string, sep: string)
    requires |sep| > 0
    requires !Occurs(s, sep)
    ensures SplitOn(s, sep) == [s]
  {
    SplitOnIsSplitRef(s, sep);
    assert FirstMatch(s, sep).None?;
  }

  /** Splitting on a single character yields one more piece than there are
      occurrences of that character. */
  lemma {:induction false} SplitCharCount(s: string, c: char)
    ensures |SplitOn(s, [c])| == CountChar(s, c) + 1
    decreases |s|
  {
    if |s| > 0 {
      SplitCharCount(s[1..], c);
      assert s[..1] == [s[0]];
    }
  }

  /** No piece of a split on a single character contains that character. */
  lemma {:induction false} SplitCharPieces(s: string, c: char)
    ensures forall k :: 0 <= k < |SplitOn(s, [c])| ==> c !in SplitOn(s, [c])[k]
    decreases |s|
  {
    if |s| > 0 {
      SplitCharPieces(s[1..], c);
      assert s[..1] == [s[0]];
    }
  }

  /** Splitting `x + sep + y`, where `x` is free of the separator
      character, cuts exactly once after `x`. */
  lemma {:induction false} SplitCharPrefix(x: string, c: char, y: string)
    requires c !in x
    ensures SplitOn(x + [c] + y, [c]) == [x] + SplitOn(y, [c])
    decreases |x|
  {
    var s := x + [c] + y;
    if |x| == 0 {
      assert s[..1] == [c];
      assert s[1..] == y;
    } else {
      assert s[0] == x[0];
      assert s[..1] != [c];
      assert s[1..] == x[1..] + [c] + y;
      SplitCharPrefix(x[1..], c, y);
      assert [x[0]] + x[1..] == x;
    }
  }

  /** A single-character split of `x` is `[x]` when `x` lacks that character. */
  lemma {:induction false} SplitCharAbsent(x: string, c: char)
    requires c !in x
    ensures SplitOn(x, [c]) == [x]
    decreases |x|
  {
    if |x| > 0 {
      assert x[0] in x;
      assert x[..1] != [c];
      SplitCharAbsent(x[1..], c);
      assert [x[0]] + x[1..] == x;
    }
  }

  /** The leftmost position of a character that occurs in `x`. */
  lemma {:induction false} FirstCharIndex(x: string, c: char) returns (k: nat)
    requires c in x
    ensures k < |x| && x[k] == c && c !in x[..k]
  {
    var i :| 0 <= i < |x| && x[i] == c;
    CharMatch(x, c, i);
    k := FirstMatch(x, [c]).value;
    CharMatch(x, c, k);
    forall j | 0 <= j < k ensures x[..k][j] != c {
      CharMatch(x, c, j);
    }
  }

  /** Splitting `x + c + y` on `c` gives the pieces of `x` followed by the
      pieces of `y`. */
  lemma {:induction false} SplitCharConcat(x: string, c: char, y: string)
    ensures SplitOn(x + [c] + y, [c]) == SplitOn(x, [c]) + SplitOn(y, [c])
    decreases |x|
  {
    if c !in x {
      SplitCharPrefix(x, c, y);
      SplitCharAbsent(x, c);
    } else {
      var k := FirstCharIndex(x, c);
      var x1, x2 := x[..k], x[k + 1..];
      CutAtChar(x, c, y, k);
      SplitCharPrefix(x1, c, x2 + [c] + y);
      SplitCharPrefix(x1, c, x2);
      SplitCharConcat(x2, c, y);
      var p, q := SplitOn(x2, [c]), SplitOn(y, [c]);
      assert SplitOn(x + [c] + y, [c]) == [x1] + (p + q);
      assert SplitOn(x, [c]) == [x1] + p;
      assert [x1] + (p + q) == ([x1] + p) + q;
    }
  }

  /** Cutting `x` around its character at `k`, which is `c`. */
  lemma {:induction false} CutAtChar(x: string, c: char, y: string, k: nat)
    requires k < |x| && x[k] == c
    ensures x == x[..k] + [c] + x[k + 1..]
    ensures x + [c] + y == x[..k] + [c] + (x[k + 1..] + [c] + y)
  {
    assert x == x[..k] + [c] + x[k + 1..];
  }

  /** Splitting a join on a single character that occurs in none of the
      parts gives back the parts. */
  lemma {:induction false} SplitJoinChar(parts: seq<string>, c: char)
    requires |parts| >= 1
    requires forall k :: 0 <= k < |parts| ==> c !in parts[k]
    ensures SplitOn(Join(parts, [c]), [c]) == parts
    decreases |parts|
  {
    if |parts| == 1 {
      SplitCharAbsent(parts[0], c);
    } else {
      SplitJoinChar(parts[1..], c);
      SplitCharPrefix(parts[0], c, Join(parts[1..], [c]));
      assert [parts[0]] + parts[1..] == parts;
    }
  }

  /** A character that is in no part and not in the separator is not in
      the join. */
  lemma {:induction false} JoinAvoids(parts: seq<string>, sep: string, c: char)
    requires c !in sep
    requires forall k :: 0 <= k < |parts| ==> c !in parts[k]
    ensures c !in Join(parts, sep)
    decreases |parts|
  {
    if |parts| > 1 {
      JoinAvoids(parts[1..], sep, c);
    }
  }

  // ---------------------------------------------------------------------
  // trim

  /** `s.trimStart()`: drops leading whitespace. */
  function TrimStart(s: string): (r: string)
    ensures |r| <= |s| && r == s[|s| - |r|..]
    ensures forall i :: 0 <= i < |s| - |r| ==> IsSpace(s[i])
    ensures |r| > 0 ==> !IsSpace(r[0])
    decreases |s|
  {
    if |s| > 0 && IsSpace(s[0]) then TrimStart(s[1..]) else s
  }

  /** `s.trimEnd()`: drops trailing whitespace. */
  function TrimEnd(s: string): (r: string)
    ensures |r| <= |s| && r == s[..|r|]
    ensures forall i :: |r| <= i < |s| ==> IsSpace(s[i])
    ensures |r| > 0 ==> !IsSpace(r[|r| - 1])
    decreases |s|
  {
    if |s| > 0 && IsSpace(s[|s| - 1]) then TrimEnd(s[..|s| - 1]) else s
  }

  /** `s.trim()`. */
  function Trim(s: string): string {
    TrimEnd(TrimStart(s))
  }

  /** A token is blank when trimming leaves nothing. */
  predicate Blank(s: string) {
    Trim(s) == ""
  }

  /** Trimming empties a string exactly when it is all whitespace. */
  lemma {:induction false} BlankIffAllSpace(s: string)
    ensures Blank(s) <==> forall i :: 0 <= i < |s| ==> IsSpace(s[i])
  {
    var t := TrimStart(s);
    if Blank(s) {
      assert |t| == 0;
    }
  }

  /** The result of `trim` is a contiguous slice of its input that neither
      starts nor ends with whitespace, and only whitespace was cut. */
  lemma {:induction false} TrimIsInnerSlice(s: string)
    ensures exists a, b :: (0 <= a <= b <= |s| && Trim(s) == s[a..b]
      && (forall i :: 0 <= i < a ==> IsSpace(s[i]))
      && (forall i :: b <= i < |s| ==> IsSpace(s[i])))
    ensures |Trim(s)| > 0 ==> !IsSpace(Trim(s)[0]) && !IsSpace(Trim(s)[|Trim(s)| - 1])
  {
    var t := TrimStart(s);
    var u := TrimEnd(t);
    var a := |s| - |t|;
    var b := a + |u|;
    SliceOfSuffix(s, a, |u|);
    SpaceAfterShift(s, a, |u|);
    assert 0 <= a <= b <= |s| && Trim(s) == s[a..b]
      && (forall i :: 0 <= i < a ==> IsSpace(s[i]))
      && (forall i :: b <= i < |s| ==> IsSpace(s[i]));
    TrimEndsNotSpace(s);
  }

  /** A non-empty trimmed string starts and ends with non-whitespace. */
  lemma {:induction false} TrimEndsNotSpace(s: string)
    ensures |Trim(s)| > 0 ==> !IsSpace(Trim(s)[0]) && !IsSpace(Trim(s)[|Trim(s)| - 1])
  {
    var t := TrimStart(s);
    var u := TrimEnd(t);
    if |u| > 0 {
      assert u[0] == t[0];
    }
  }

  /** A prefix of a suffix is a slice. */
  lemma {:induction false} SliceOfSuffix(s: string, a: nat, k: nat)
    requires a + k <= |s|
    ensures s[a..][..k] == s[a..a + k]
  {
  }

  /** Whitespace at the end of the suffix `s[a..]` is whitespace at the
      end of `s`, `a` positions further on. */
  lemma {:induction false} SpaceAfterShift(s: string, a: nat, k: nat)
    requires a + k <= |s|
    requires forall i :: k <= i < |s| - a ==> IsSpace(s[a..][i])
    ensures forall i :: a + k <= i < |s| ==> IsSpace(s[i])
  {
    forall i | a + k <= i < |s| ensures IsSpace(s[i]) {
      assert s[i] == s[a..][i - a];
    }
  }

  /** Trimming a string with no whitespace at all changes nothing. */
  lemma {:induction false} TrimNoSpace(s: string)
    requires forall i :: 0 <= i < |s| ==> !IsSpace(s[i])
    ensures Trim(s) == s
  {
    var t := TrimStart(s);
    assert |t| == |s|;
  }

  /** `trim` is idempotent. */
  lemma {:induction false} TrimIdempotent(s: string)
    ensures Trim(Trim(s)) == Trim(s)
  {
    var u := Trim(s);
    TrimIsInnerSlice(s);
    assert TrimStart(u) == u;
  }
}
