/** The string helpers and validators of the utility module: the file name a
    downloaded image gets, the ordering check on a requested window and the
    format check on a "YYYYMMDD HHMMSS" argument. */
module SoracomUtils {
  import opened Wrappers

  // ---------------------------------------------------------------------------
  // str.split and str.join for a one-character separator
  // ---------------------------------------------------------------------------

  /** Python's `s.split(sep)`: the maximal pieces between occurrences of `sep`,
      empty pieces included; there is always at least one piece. */
  function Split(s: string, sep: char): (parts: seq<string>)
    ensures |parts| >= 1
    decreases |s|
  {
    if s == [] then [""]
    else
      var rest := Split(s[1..], sep);
      if s[0] == sep then [""] + rest
      else [[s[0]] + rest[0]] + rest[1..]
  }

  /** No piece holds the separator, and there is more than one piece exactly
      when the separator occurs in the string. */
  lemma {:induction false} SplitPieces(s: string, sep: char)
    ensures forall i :: 0 <= i < |Split(s, sep)| ==> sep !in Split(s, sep)[i]
    ensures (sep in s) <==> |Split(s, sep)| > 1
    decreases |s|
  {
    if s != [] {
      SplitPieces(s[1..], sep);
      SplitCons(s[0], s[1..], sep);
      assert s == [s[0]] + s[1..];
    }
  }

  /** Python's `sep.join(parts)`. */
  function Join(parts: seq<string>, sep: char): string
  {
    if parts == [] then ""
    else if |parts| == 1 then parts[0]
    else parts[0] + [sep] + Join(parts[1..], sep)
  }

  /** Joining the pieces of a split gives the string back. */
  lemma {:induction false} JoinSplit(s: string, sep: char)
    ensures Join(Split(s, sep), sep) == s
    decreases |s|
  {
    if s != [] {
      JoinSplit(s[1..], sep);
      var rest := Split(s[1..], sep);
      if s[0] != sep && |rest| > 1 {
        assert [s[0]] + rest[0] + [sep] + Join(rest[1..], sep) == [s[0]] + Join(rest, sep);
      }
    }
  }

  /** One step of the split: how the first character joins the pieces. */
  lemma SplitCons(c: char, t: string, sep: char)
    ensures Split([c] + t, sep) ==
      if c == sep then [""] + Split(t, sep)
      else [[c] + Split(t, sep)[0]] + Split(t, sep)[1..]
  {
    assert ([c] + t)[1..] == t;
  }
  /** Putting a piece back in front of a concatenation of pieces. */
  lemma ConsFront(h: string, a: seq<string>, b: seq<string>)
    requires |a| >= 1
    ensures [h] + (a + b)[1..] == ([h] + a[1..]) + b
  {
    assert (a + b)[1..] == a[1..] + b;
  }
  /** Consing a character onto the left part of a split at a separator. */
  lemma SplitAroundStep(c: char, t: string, sep: char, y: string)
    requires Split(t + [sep] + y, sep) == Split(t, sep) + Split(y, sep)
    ensures Split([c] + (t + [sep] + y), sep) == Split([c] + t, sep) + Split(y, sep)
  {
    SplitCons(c, t + [sep] + y, sep);
    SplitCons(c, t, sep);
    var a, b := Split(t, sep), Split(y, sep);
    if c != sep {
      ConsFront([c] + a[0], a, b);
    }
  }
  /** Splitting at a separator splits both sides independently. */
  lemma {:induction false} SplitAround(x: string, sep: char, y: string)
    ensures Split(x + [sep] + y, sep) == Split(x, sep) + Split(y, sep)
    decreases |x|
  {
    if x == [] {
      assert x + [sep] + y == [sep] + y;
      SplitCons(sep, y, sep);
    } else {
      SplitAround(x[1..], sep, y);
      SplitAroundStep(x[0], x[1..], sep, y);
      assert [x[0]] + x[1..] == x;
      assert [x[0]] + (x[1..] + [sep] + y) == x + [sep] + y;
    }
  }

  /** A string without the separator splits into itself. */
  lemma {:induction false} SplitWithout(s: string, sep: char)
    requires sep !in s
    ensures Split(s, sep) == [s]
    decreases |s|
  {
    if s != [] {
      SplitWithout(s[1..], sep);
      assert s == [s[0]] + s[1..];
    }
  }

  /** Splitting the join of separator-free pieces gives the pieces back. */
  lemma {:induction false} SplitJoin(parts: seq<string>, sep: char)
    requires |parts| >= 1
    requires forall i :: 0 <= i < |parts| ==> sep !in parts[i]
    ensures Split(Join(parts, sep), sep) == parts
    decreases |parts|
  {
    if |parts| == 1 {
      SplitWithout(parts[0], sep);
    } else {
      SplitJoin(parts[1..], sep);
      SplitWithout(parts[0], sep);
      SplitAround(parts[0], sep, Join(parts[1..], sep));
      assert parts == [parts[0]] + parts[1..];
    }
  }

  /** `s.split(sep)[0]` is the prefix of `s` before the first `sep`. */
  lemma FirstPiece(s: string, sep: char)
    ensures var p := Split(s, sep)[0];
      p <= s && sep !in p && (|p| < |s| ==> s[|p|] == sep)
  {
    var parts := Split(s, sep);
    JoinSplit(s, sep);
    SplitPieces(s, sep);
    if |parts| > 1 {
      assert s == parts[0] + ([sep] + Join(parts[1..], sep));
    }
  }

  /** `s.split(sep)[-1]` is the suffix of `s` after the last `sep`. */
  lemma {:induction false} LastPiece(s: string, sep: char)
    ensures var parts := Split(s, sep); var p := parts[|parts| - 1];
      |p| <= |s| && s[|s| - |p|..] == p && sep !in p &&
      (|p| < |s| ==> s[|s| - |p| - 1] == sep)
    decreases |s|
  {
    SplitPieces(s, sep);
    if s != [] {
      var t := s[1..];
      LastPiece(t, sep);
      SplitPieces(t, sep);
      SplitCons(s[0], t, sep);
      assert s == [s[0]] + t;
      var rest := Split(t, sep);
      var q := rest[|rest| - 1];
      var parts := Split(s, sep);
      if s[0] == sep || |rest| > 1 {
        assert parts[|parts| - 1] == q;
        assert s[|s| - |q|..] == t[|t| - |q|..];
        assert |rest| > 1 ==> |q| < |t|;
      } else {
        assert q == t;
        assert parts[|parts| - 1] == s;
      }
    }
  }

  // ---------------------------------------------------------------------------
  // downloadImage: the local file name of a downloaded image
  // ---------------------------------------------------------------------------

  /** The file part of a URL: the last '/'-separated segment of the part before
      the first '?'. */
  function FileName(url: string): string
  {
    var prefix := Split(url, '?')[0];
    var segments := Split(prefix, '/');
    segments[|segments| - 1]
  }

  /** The file name with the optional sequence-number prefix. */
  function TargetName(url: string, seqNo: string): string
  {
    if |seqNo| > 0 then seqNo + "_" + FileName(url) else FileName(url)
  }

  /** The path `downloadImage` writes to and returns. */
  function TargetPath(url: string, path: string, seqNo: string): string
  {
    path + "/" + TargetName(url, seqNo)
  }

  /** The file name carries no '?' and no '/', and it is the last segment of the
      URL's part before the first '?': a suffix of that part that is either all
      of it or preceded by a '/'. */
  lemma FileNameShape(url: string)
    ensures var prefix := Split(url, '?')[0]; var name := FileName(url);
      '?' !in name && '/' !in name &&
      prefix <= url && '?' !in prefix &&
      |name| <= |prefix| && prefix[|prefix| - |name|..] == name &&
      (|name| < |prefix| ==> prefix[|prefix| - |name| - 1] == '/')
  {
    var prefix := Split(url, '?')[0];
    FirstPiece(url, '?');
    LastPiece(prefix, '/');
    var segments := Split(prefix, '/');
    var name := segments[|segments| - 1];
    assert FileName(url) == name;
    NotInSuffix(prefix, |prefix| - |name|, '?');
  }

  lemma NotInSuffix(s: string, k: nat, c: char)
    requires k <= |s| && c !in s
    ensures c !in s[k..]
  {
  }

  /** With a non-empty sequence number the name is `seq + "_" + base`, with an
      empty one it is the base name, and the path is `path + "/" + name`. */
  lemma TargetPathShape(url: string, path: string, seqNo: string)
    ensures |seqNo| > 0 ==> TargetPath(url, path, seqNo) == path + "/" + seqNo + "_" + FileName(url)
    ensures |seqNo| == 0 ==> TargetPath(url, path, seqNo) == path + "/" + FileName(url)
    ensures TargetPath(url, path, seqNo)[..|path| + 1] == path + "/"
  {
    var t := TargetPath(url, path, seqNo);
    assert t == (path + "/") + TargetName(url, seqNo);
  }

  // ---------------------------------------------------------------------------
  // checkStartEndDatetime
  // ---------------------------------------------------------------------------

  /** The ordering check on a requested window. An argument that is not a
      datetime is `None`; instants are milliseconds. The check passes exactly
      when both ends are present, the start is strictly before the end and,
      when a "now" is given, the end is strictly before it. */
  function CheckStartEnd(st: Option<int>, ed: Option<int>, nw: Option<int>): (ok: bool)
    ensures ok <==> st.Some? && ed.Some? && st.value < ed.value &&
                    (nw.Some? ==> ed.value < nw.value)
    ensures ok && nw.Some? ==> st.value < nw.value
  {
    if st.None? then false
    else if ed.None? then false
    else if st.value >= ed.value then false
    else if nw.Some? && ed.value >= nw.value then false
    else true
  }

  // ---------------------------------------------------------------------------
  // convertFormattedStringDateTime: the format check before strptime
  // ---------------------------------------------------------------------------

  /** Where the check ends: rejected (the function returns False), or handed to
      `strptime` with the time-zone suffix appended. What `strptime` then does
      is not part of this model. */
  datatype Conversion = Rejected | ToStrptime(text: string)

  const Digits: set<char> := {'0', '1', '2', '3', '4', '5', '6', '7', '8', '9'}

  /** `20[0-9][0-9][01][0-9][0-3][0-9]`, one character class per position. */
  const DateClasses: seq<set<char>> :=
    [{'2'}, {'0'}, Digits, Digits, {'0', '1'}, Digits, {'0', '1', '2', '3'}, Digits]

  /** `[0-2][0-9][0-6][0-9][0-6][0-9]`. */
  const TimeClasses: seq<set<char>> :=
    [{'0', '1', '2'}, Digits, {'0', '1', '2', '3', '4', '5', '6'}, Digits,
     {'0', '1', '2', '3', '4', '5', '6'}, Digits]

  /** `re.match` with a pattern made of single character classes: it matches
      at the start of the string and needs no more than the pattern's length. */
  predicate MatchesAtStart(t: string, classes: seq<set<char>>)
  {
    |t| >= |classes| && forall i :: 0 <= i < |classes| ==> t[i] in classes[i]
  }

  const ZoneSuffix: string := " +0900"

  function ConvertFormatted(dt: string): (r: Conversion)
    ensures r.ToStrptime? ==> r.text == dt + ZoneSuffix
  {
    var s := dt + ZoneSuffix;
    if ' ' in s then
      var ar := Split(s, ' ');
      SplitPieces(s, ' ');
      if |ar[0]| == 8 && |ar[1]| == 6 then
        if MatchesAtStart(ar[0], DateClasses) then
          if MatchesAtStart(ar[1], TimeClasses) then ToStrptime(s)
          else Rejected
        else Rejected
      else Rejected
    else Rejected
  }

  /** The argument as the caller wrote it is well formed: its first two
      space-separated tokens have 8 and 6 characters and fit the date and
      time patterns. */
  predicate WellFormed(dt: string)
  {
    var p := Split(dt, ' ');
    |p| >= 2 && |p[0]| == 8 && |p[1]| == 6 &&
    MatchesAtStart(p[0], DateClasses) && MatchesAtStart(p[1], TimeClasses)
  }

  /** The check reaches `strptime` exactly for well-formed arguments; in
      particular an argument without a space is always rejected, because the
      appended zone token "+0900" has five characters, not six. */
  lemma {:induction false} ConvertAcceptsExactlyWellFormed(dt: string)
    ensures ConvertFormatted(dt).ToStrptime? <==> WellFormed(dt)
    ensures ' ' !in dt ==> ConvertFormatted(dt) == Rejected
  {
    var s := dt + ZoneSuffix;
    assert s == dt + [' '] + "+0900";
    assert s[|dt|] == ' ';
    SplitAround(dt, ' ', "+0900");
    SplitWithout("+0900", ' ');
    var ar := Split(s, ' ');
    var p := Split(dt, ' ');
    SplitPieces(dt, ' ');
    assert ar == p + ["+0900"];
    assert ar[0] == p[0];
    if |p| >= 2 {
      assert ar[1] == p[1];
    } else {
      assert ar[1] == "+0900";
    }
  }
}
