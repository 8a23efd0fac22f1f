/**
 * Text helpers the pipeline and the viewers build names and commands from:
 * decimal rendering of naturals, last-occurrence search, splitting and
 * joining on a separator (Python's str.split / str.join), and the last
 * component of a '/'-separated path.
 */
module Strings {
  import opened Results

  function DigitChar(d: nat): (c: char)
    requires d < 10
    ensures '0' <= c <= '9'
  {
    "0123456789"[d]
  }

  function DigitValue(c: char): nat
  {
    if '0' <= c <= '9' then (c as int - '0' as int) as nat else 0
  }

  /** Decimal text of n, as Python's str(int) and JavaScript's String(n) write it. */
  function NatToString(n: nat): (s: string)
    ensures |s| >= 1
    ensures forall i :: 0 <= i < |s| ==> '0' <= s[i] <= '9'
  {
    if n < 10 then [DigitChar(n)] else NatToString(n / 10) + [DigitChar(n % 10)]
  }

  /** Reads decimal text back; the inverse of NatToString. */
  function ParseNat(s: string): nat
  {
    if |s| == 0 then 0 else ParseNat(s[..|s| - 1]) * 10 + DigitValue(s[|s| - 1])
  }

  lemma DigitRoundTrip(d: nat)
    requires d < 10
    ensures DigitValue(DigitChar(d)) == d
  {
  }

  lemma {:induction false} NatToStringRoundTrip(n: nat)
    ensures ParseNat(NatToString(n)) == n
  {
    if n < 10 {
      DigitRoundTrip(n);
      assert NatToString(n)[..0] == [];
    } else {
      var s := NatToString(n);
      NatToStringRoundTrip(n / 10);
      DigitRoundTrip(n % 10);
      assert s[..|s| - 1] == NatToString(n / 10);
    }
  }

  /**
   * A number written between two texts can be read back: the text before
   * it, its digits (which parse to n) and the text after it.
   */
  lemma NumberReadBack(pre: string, n: nat, post: string)
    ensures var s := pre + NatToString(n) + post;
            var e := |pre| + |NatToString(n)|;
            s[..|pre|] == pre && ParseNat(s[|pre|..e]) == n && s[e..] == post
  {
    var s := pre + NatToString(n) + post;
    assert s[|pre|..|pre| + |NatToString(n)|] == NatToString(n);
    NatToStringRoundTrip(n);
  }

  /** The position of the last occurrence of c in s, if any. */
  function LastIndexOf(s: string, c: char): (r: Option<nat>)
    ensures r.Some? ==> r.value < |s|
  {
    if |s| == 0 then None
    else if s[|s| - 1] == c then Some(|s| - 1)
    else LastIndexOf(s[..|s| - 1], c)
  }

  /** None exactly when c does not occur; otherwise an occurrence with none after it. */
  lemma {:induction false} LastIndexOfSpec(s: string, c: char)
    ensures LastIndexOf(s, c).None? <==> c !in s
    ensures LastIndexOf(s, c).Some? ==>
              var i := LastIndexOf(s, c).value;
              s[i] == c && forall j :: i < j < |s| ==> s[j] != c
    decreases |s|
  {
    if |s| > 0 && s[|s| - 1] != c {
      LastIndexOfSpec(s[..|s| - 1], c);
      assert forall j :: 0 <= j < |s| - 1 ==> s[..|s| - 1][j] == s[j];
      assert s == s[..|s| - 1] + [s[|s| - 1]];
    }
  }

  /** Python's s.split(sep) for a one-character separator: never empty. */
  function Split(s: string, sep: char): (parts: seq<string>)
    ensures |parts| >= 1
    ensures forall k :: 0 <= k < |parts| ==> sep !in parts[k]
    decreases |s|
  {
    LastIndexOfSpec(s, sep);
    match LastIndexOf(s, sep)
    case None => [s]
    case Some(i) =>
      assert forall j :: i < j < |s| ==> s[i + 1..][j - i - 1] == s[j];
      Split(s[..i], sep) + [s[i + 1..]]
  }

  /** Python's sep.join(parts). */
  function Join(parts: seq<string>, sep: char): string
  {
    if |parts| == 0 then ""
    else if |parts| == 1 then parts[0]
    else Join(parts[..|parts| - 1], sep) + [sep] + parts[|parts| - 1]
  }

  /** Splitting and joining back gives the original text. */
  lemma {:induction false} SplitJoin(s: string, sep: char)
    ensures Join(Split(s, sep), sep) == s
    decreases |s|
  {
    LastIndexOfSpec(s, sep);
    match LastIndexOf(s, sep)
    case None =>
    case Some(i) =>
      SplitJoin(s[..i], sep);
      var parts := Split(s, sep);
      assert parts[..|parts| - 1] == Split(s[..i], sep);
      assert s == s[..i] + [sep] + s[i + 1..];
  }

  /** The text after the last '/': Python's os.path.basename for '/'-separated paths. */
  function Basename(path: string): string
  {
    match LastIndexOf(path, '/')
    case None => path
    case Some(i) => path[i + 1..]
  }

  /** The base name is a '/'-free tail of the path, the whole path or what follows a '/'. */
  lemma BasenameSpec(path: string)
    ensures var b := Basename(path);
            '/' !in b && |b| <= |path| && path[|path| - |b|..] == b &&
            (|b| == |path| || path[|path| - |b| - 1] == '/')
  {
    LastIndexOfSpec(path, '/');
    match LastIndexOf(path, '/')
    case None =>
    case Some(i) =>
      var b := path[i + 1..];
      assert |path| - |b| == i + 1;
      forall k | 0 <= k < |b|
        ensures b[k] != '/'
      {
        assert b[k] == path[i + 1 + k];
      }
  }
}
