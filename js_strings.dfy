/**
 * The JavaScript string primitives the /proc/net/dev parser is built from:
 * `String.prototype.trim`, `split` on a one-character separator, `split(/\s+/)`
 * and `parseInt` applied to a string of decimal digits.
 */
module JsStrings {

  /** ECMAScript line terminators: the characters a regular-expression `.` does not match. */
  predicate IsLineTerminator(c: char) {
    c == '\n' || c == '\r' || c == '\U{2028}' || c == '\U{2029}'
  }

  /** ECMAScript white space and line terminators: what `trim` removes and `\s` matches. */
  predicate IsSpace(c: char) {
    || c == '\t' || c == '\U{000B}' || c == '\U{000C}' || c == ' '
    || c == '\U{00A0}' || c == '\U{FEFF}' || c == '\U{1680}'
    || ('\U{2000}' <= c <= '\U{200A}')
    || c == '\U{202F}' || c == '\U{205F}' || c == '\U{3000}'
    || IsLineTerminator(c)
  }

  predicate NoSpace(s: string) {
    forall i :: 0 <= i < |s| ==> !IsSpace(s[i])
  }

  /** `s` with its leading white space removed. */
  function TrimStart(s: string): (r: string)
    ensures |r| <= |s|
  {
    if |s| > 0 && IsSpace(s[0]) then TrimStart(s[1..]) else s
  }

  /** `TrimStart` keeps the longest suffix that does not start with white space. */
  lemma {:induction false} TrimStartSpec(s: string)
    ensures var r := TrimStart(s);
      && r == s[|s| - |r|..]
      && (forall k :: 0 <= k < |s| - |r| ==> IsSpace(s[k]))
      && (|r| > 0 ==> !IsSpace(r[0]))
  {
    if |s| > 0 && IsSpace(s[0]) {
      TrimStartSpec(s[1..]);
      var r := TrimStart(s);
      forall k | 1 <= k < |s| - |r| ensures IsSpace(s[k]) {
        assert s[k] == s[1..][k - 1];
      }
    }
  }

  /** `s` with its trailing white space removed. */
  function TrimEnd(s: string): (r: string)
    ensures |r| <= |s|
  {
    if |s| > 0 && IsSpace(s[|s| - 1]) then TrimEnd(s[..|s| - 1]) else s
  }

  /** `TrimEnd` keeps the longest prefix that does not end with white space. */
  lemma {:induction false} TrimEndSpec(s: string)
    ensures var r := TrimEnd(s);
      && r == s[..|r|]
      && (forall k :: |r| <= k < |s| ==> IsSpace(s[k]))
      && (|r| > 0 ==> !IsSpace(r[|r| - 1]))
  {
    if |s| > 0 && IsSpace(s[|s| - 1]) {
      TrimEndSpec(s[..|s| - 1]);
      var r := TrimEnd(s);
      forall k | |r| <= k < |s| - 1 ensures IsSpace(s[k]) {
        assert s[k] == s[..|s| - 1][k];
      }
    }
  }

  /** `s.trim()` */
  function Trim(s: string): (r: string) {
    TrimEnd(TrimStart(s))
  }

  /** A string that neither starts nor ends with white space is its own trim. */
  lemma TrimTrimmed(s: string)
    requires |s| > 0 ==> !IsSpace(s[0]) && !IsSpace(s[|s| - 1])
    ensures Trim(s) == s
  {
  }

  /** `s.split(sep)` for a one-character separator: the pieces between the occurrences of `sep`. */
  function Split(s: string, sep: char): (r: seq<string>)
    ensures |r| >= 1
  {
    if |s| == 0 then [""]
    else
      var rest := Split(s[1..], sep);
      if s[0] == sep then [""] + rest else [[s[0]] + rest[0]] + rest[1..]
  }

  /** `pieces.join(sep)` for a one-character separator. */
  function Join(pieces: seq<string>, sep: char): (r: string)
    requires |pieces| >= 1
  {
    if |pieces| == 1 then pieces[0] else pieces[0] + [sep] + Join(pieces[1..], sep)
  }

  predicate NoLineTerminator(s: string) {
    forall i :: 0 <= i < |s| ==> !IsLineTerminator(s[i])
  }

  /** The last character of a join is the last character of its last piece. */
  lemma {:induction false} JoinLast(pieces: seq<string>, sep: char)
    requires |pieces| >= 1 && |pieces[|pieces| - 1]| > 0
    ensures var j := Join(pieces, sep); var l := pieces[|pieces| - 1];
      |j| > 0 && j[|j| - 1] == l[|l| - 1]
  {
    if |pieces| > 1 {
      assert pieces[1..][|pieces[1..]| - 1] == pieces[|pieces| - 1];
      JoinLast(pieces[1..], sep);
    }
  }

  /** Joining single-line pieces with a separator that does not end a line gives a single line. */
  lemma {:induction false} JoinNoLineTerminator(pieces: seq<string>, sep: char)
    requires |pieces| >= 1 && !IsLineTerminator(sep)
    requires forall i :: 0 <= i < |pieces| ==> NoLineTerminator(pieces[i])
    ensures NoLineTerminator(Join(pieces, sep))
  {
    if |pieces| > 1 {
      JoinNoLineTerminator(pieces[1..], sep);
      var tail := Join(pieces[1..], sep);
      assert NoLineTerminator(pieces[0]);
      forall i | 0 <= i < |pieces[0] + [sep] + tail|
        ensures !IsLineTerminator((pieces[0] + [sep] + tail)[i])
      {
        if i > |pieces[0]| {
          assert (pieces[0] + [sep] + tail)[i] == tail[i - |pieces[0]| - 1];
        }
      }
    }
  }

  /** Joining the pieces of a split gives back the string that was split. */
  lemma {:induction false} JoinSplit(s: string, sep: char)
    ensures Join(Split(s, sep), sep) == s
  {
    if |s| > 0 {
      var rest := Split(s[1..], sep);
      JoinSplit(s[1..], sep);
      if s[0] != sep && |rest| > 1 {
        assert Join(rest, sep) == rest[0] + [sep] + Join(rest[1..], sep);
        assert rest[1..][1..] == rest[2..];
      }
    }
  }

  /** Splitting `p + t` where `p` holds no separator glues `p` to the first piece of `t`. */
  lemma {:induction false} SplitPrefix(p: string, t: string, sep: char)
    requires sep !in p
    ensures Split(p + t, sep) == [p + Split(t, sep)[0]] + Split(t, sep)[1..]
  {
    var r := Split(t, sep);
    if |p| > 0 {
      SplitPrefix(p[1..], t, sep);
      assert (p + t)[0] == p[0] && p[0] != sep;
      assert (p + t)[1..] == p[1..] + t;
      assert [p[0]] + (p[1..] + r[0]) == p + r[0];
    } else {
      assert p + t == t && p + r[0] == r[0];
      assert [r[0]] + r[1..] == r;
    }
  }

  /** Splitting the join of separator-free pieces gives back the pieces. */
  lemma {:induction false} SplitJoin(pieces: seq<string>, sep: char)
    requires |pieces| >= 1
    requires forall i :: 0 <= i < |pieces| ==> sep !in pieces[i]
    ensures Split(Join(pieces, sep), sep) == pieces
  {
    if |pieces| == 1 {
      SplitPrefix(pieces[0], "", sep);
      assert pieces[0] + "" == pieces[0];
    } else {
      var tail := Join(pieces[1..], sep);
      SplitJoin(pieces[1..], sep);
      assert ([sep] + tail)[0] == sep && ([sep] + tail)[1..] == tail;
      assert Split([sep] + tail, sep) == [""] + pieces[1..];
      SplitPrefix(pieces[0], [sep] + tail, sep);
      assert pieces[0] + [sep] + tail == pieces[0] + ([sep] + tail);
      assert pieces[0] + "" == pieces[0];
      assert [pieces[0]] + pieces[1..] == pieces;
    }
  }

  /**
   * `s.split(/\s+/)`: the pieces between maximal runs of white space; an empty piece
   * stands before a leading run and after a trailing one, and `""` splits to `[""]`.
   */
  function SplitWs(s: string): (r: seq<string>)
    ensures |r| >= 1
  {
    if |s| == 0 then [""]
    else
      var rest := SplitWs(s[1..]);
      if !IsSpace(s[0]) then [[s[0]] + rest[0]] + rest[1..]
      else if |s| > 1 && IsSpace(s[1]) then rest
      else [""] + rest
  }

  /** A word without white space in front of `t` is glued to the first piece of `t`. */
  lemma {:induction false} SplitWsPrefix(w: string, t: string)
    requires NoSpace(w)
    ensures SplitWs(w + t) == [w + SplitWs(t)[0]] + SplitWs(t)[1..]
  {
    var r := SplitWs(t);
    if |w| > 0 {
      SplitWsPrefix(w[1..], t);
      assert (w + t)[0] == w[0] && !IsSpace(w[0]);
      assert (w + t)[1..] == w[1..] + t;
      assert [w[0]] + (w[1..] + r[0]) == w + r[0];
    } else {
      assert w + t == t && w + r[0] == r[0];
      assert [r[0]] + r[1..] == r;
    }
  }

  /** White space that does not end a line: what pads the columns of a one-line table row. */
  predicate Blank(s: string) {
    forall i :: 0 <= i < |s| ==> IsSpace(s[i]) && !IsLineTerminator(s[i])
  }

  /** `words[0] + gaps[0] + words[1] + ... + words[n]`: words with a gap between each two. */
  function Interleave(words: seq<string>, gaps: seq<string>): (r: string)
    requires |words| == |gaps| + 1
  {
    if |gaps| == 0 then words[0] else words[0] + gaps[0] + Interleave(words[1..], gaps[1..])
  }

  /** A run of white space in front of a word becomes one empty piece. */
  lemma {:induction false} SplitWsRun(sp: string, t: string)
    requires |sp| > 0 && forall i :: 0 <= i < |sp| ==> IsSpace(sp[i])
    requires |t| > 0 && !IsSpace(t[0])
    ensures SplitWs(sp + t) == [""] + SplitWs(t)
  {
    assert (sp + t)[1..] == sp[1..] + t;
    if |sp| == 1 {
      assert sp[1..] + t == t;
    } else {
      SplitWsRun(sp[1..], t);
    }
  }

  /** Splitting words separated by runs of white space gives back the words. */
  lemma {:induction false} SplitWsInterleave(words: seq<string>, gaps: seq<string>)
    requires |words| == |gaps| + 1
    requires forall i :: 0 <= i < |words| ==> |words[i]| > 0 && NoSpace(words[i])
    requires forall i :: 0 <= i < |gaps| ==> |gaps[i]| > 0 && Blank(gaps[i])
    ensures SplitWs(Interleave(words, gaps)) == words
  {
    if |gaps| == 0 {
      SplitWsPrefix(words[0], "");
      assert words[0] + "" == words[0];
    } else {
      var tail := Interleave(words[1..], gaps[1..]);
      SplitWsInterleave(words[1..], gaps[1..]);
      InterleaveFirst(words[1..], gaps[1..]);
      SplitWsRun(gaps[0], tail);
      SplitWsPrefix(words[0], gaps[0] + tail);
      assert words[0] + gaps[0] + tail == words[0] + (gaps[0] + tail);
      assert words[0] + "" == words[0];
      assert [words[0]] + words[1..] == words;
    }
  }

  /** An interleaving starts with the first character of the first word. */
  lemma InterleaveFirst(words: seq<string>, gaps: seq<string>)
    requires |words| == |gaps| + 1 && |words[0]| > 0
    ensures var r := Interleave(words, gaps); |r| > 0 && r[0] == words[0][0]
  {
  }

  /** An interleaving ends with the last character of the last word. */
  lemma {:induction false} InterleaveLast(words: seq<string>, gaps: seq<string>)
    requires |words| == |gaps| + 1 && |words[|words| - 1]| > 0
    ensures var r := Interleave(words, gaps); var l := words[|words| - 1];
      |r| > 0 && r[|r| - 1] == l[|l| - 1]
  {
    if |gaps| > 0 {
      assert words[1..][|words[1..]| - 1] == words[|words| - 1];
      InterleaveLast(words[1..], gaps[1..]);
    }
  }

  /** Interleaving single-line words with blank gaps gives a single line. */
  lemma {:induction false} InterleaveNoLineTerminator(words: seq<string>, gaps: seq<string>)
    requires |words| == |gaps| + 1
    requires forall i :: 0 <= i < |words| ==> NoLineTerminator(words[i])
    requires forall i :: 0 <= i < |gaps| ==> Blank(gaps[i])
    ensures NoLineTerminator(Interleave(words, gaps))
  {
    if |gaps| > 0 {
      InterleaveNoLineTerminator(words[1..], gaps[1..]);
      var tail := Interleave(words[1..], gaps[1..]);
      var r := words[0] + gaps[0] + tail;
      assert NoLineTerminator(words[0]) && Blank(gaps[0]);
      forall i | 0 <= i < |r| ensures !IsLineTerminator(r[i]) {
        if i < |words[0]| {
          assert r[i] == words[0][i];
        } else if i < |words[0]| + |gaps[0]| {
          assert r[i] == gaps[0][i - |words[0]|];
        } else {
          assert r[i] == tail[i - |words[0]| - |gaps[0]|];
        }
      }
    }
  }

  /** Leading white space in front of a non-space character is exactly what `TrimStart` removes. */
  lemma {:induction false} TrimStartPadded(sp: string, t: string)
    requires forall i :: 0 <= i < |sp| ==> IsSpace(sp[i])
    requires |t| > 0 && !IsSpace(t[0])
    ensures TrimStart(sp + t) == t
  {
    if |sp| > 0 {
      assert (sp + t)[1..] == sp[1..] + t;
      TrimStartPadded(sp[1..], t);
    } else {
      assert sp + t == t;
    }
  }

  predicate IsDigit(c: char) {
    '0' <= c <= '9'
  }

  /** A non-empty string of decimal digits. */
  predicate IsDigits(s: string) {
    |s| > 0 && forall i :: 0 <= i < |s| ==> IsDigit(s[i])
  }

  /** `parseInt(s)` for a string of decimal digits. */
  function Decimal(s: string): (n: nat)
    requires forall i :: 0 <= i < |s| ==> IsDigit(s[i])
  {
    if |s| == 0 then 0
    else
      assert IsDigit(s[|s| - 1]);
      Decimal(s[..|s| - 1]) * 10 + (s[|s| - 1] as int - '0' as int)
  }

  /** The decimal numeral of `n`, as the kernel prints a counter. */
  function ShowNat(n: nat): (s: string)
    ensures IsDigits(s)
  {
    if n < 10 then [('0' as int + n) as char]
    else ShowNat(n / 10) + [('0' as int + n % 10) as char]
  }

  /** `parseInt` reads back every counter the kernel prints. */
  lemma {:induction false} DecimalShowNat(n: nat)
    ensures Decimal(ShowNat(n)) == n
  {
    if n >= 10 {
      var s := ShowNat(n);
      assert s[..|s| - 1] == ShowNat(n / 10);
      DecimalShowNat(n / 10);
    }
  }
}
