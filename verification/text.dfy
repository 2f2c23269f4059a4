/** The PHP string primitives the client relies on: `trim`, `ltrim`,
    `explode` (unlimited and with limit 2), `implode`, `strtoupper`, and the
    decimal reading and writing of non-negative integers. */
module Text {
  import opened Wrappers

  /** The characters PHP's `trim` strips by default: space, tab, line feed,
      carriage return, NUL and vertical tab. */
  predicate IsSpace(c: char) {
    c == ' ' || c == '\t' || c == '\n' || c == '\r' || c == '\0' || c == '\U{000B}'
  }

  /** The character lists the client passes to `trim` and `ltrim`: PHP's
      default white space, and `'/'`. */
  datatype CharClass = WhiteSpace | Slashes

  predicate InClass(cls: CharClass, c: char) {
    match cls
    case WhiteSpace => IsSpace(c)
    case Slashes => c == '/'
  }

  /** Scanning forward from `i`: the first position whose character is not
      in `cls`, or the end of `s`. */
  function SkipFrom(s: string, cls: CharClass, i: nat): (n: nat)
    requires i <= |s|
    ensures i <= n <= |s|
    ensures forall k :: i <= k < n ==> InClass(cls, s[k])
    ensures n < |s| ==> !InClass(cls, s[n])
    decreases |s| - i
  {
    if i < |s| && InClass(cls, s[i]) then SkipFrom(s, cls, i + 1) else i
  }

  /** Scanning backward from `j`: the end of what is left of `s[..j]` once
      the characters in `cls` just before `j` are dropped. */
  function SkipBack(s: string, cls: CharClass, j: nat): (n: nat)
    requires j <= |s|
    ensures n <= j
    ensures forall k :: n <= k < j ==> InClass(cls, s[k])
    ensures n > 0 ==> !InClass(cls, s[n - 1])
  {
    if j > 0 && InClass(cls, s[j - 1]) then SkipBack(s, cls, j - 1) else j
  }

  /** A forward scan stops exactly at the first character outside `cls`. */
  lemma {:induction false} SkipFromAt(s: string, cls: CharClass, i: nat, n: nat)
    requires i <= n <= |s|
    requires forall k :: i <= k < n ==> InClass(cls, s[k])
    requires n < |s| ==> !InClass(cls, s[n])
    ensures SkipFrom(s, cls, i) == n
    decreases n - i
  {
    if i < n {
      SkipFromAt(s, cls, i + 1, n);
    }
  }

  /** A backward scan stops exactly after the last character outside `cls`. */
  lemma {:induction false} SkipBackAt(s: string, cls: CharClass, j: nat, n: nat)
    requires n <= j <= |s|
    requires forall k :: n <= k < j ==> InClass(cls, s[k])
    requires n > 0 ==> !InClass(cls, s[n - 1])
    ensures SkipBack(s, cls, j) == n
    decreases j - n
  {
    if n < j {
      SkipBackAt(s, cls, j - 1, n);
    }
  }

  /** `ltrim(s, chars)`: drops the longest prefix of characters in `drop`. */
  function TrimLeft(s: string, drop: CharClass): (r: string)
    ensures |r| <= |s| && r == s[|s| - |r|..]
    ensures forall k :: 0 <= k < |s| - |r| ==> InClass(drop, s[k])
    ensures |r| > 0 ==> !InClass(drop, r[0])
  {
    var n := SkipFrom(s, drop, 0);
    assert n < |s| ==> s[n..][0] == s[n];
    s[n..]
  }

  /** A leading character in `drop` is dropped, and `ltrim` goes on after it. */
  lemma TrimLeftCons(c: char, s: string, drop: CharClass)
    requires InClass(drop, c)
    ensures TrimLeft([c] + s, drop) == TrimLeft(s, drop)
  {
    var t := [c] + s;
    var n := SkipFrom(s, drop, 0);
    SkipFromAt(t, drop, 0, n + 1);
    assert t[n + 1..] == s[n..];
  }

  /** Text that does not start with a character in `drop` is kept whole. */
  lemma TrimLeftStop(s: string, drop: CharClass)
    requires |s| > 0 && !InClass(drop, s[0])
    ensures TrimLeft(s, drop) == s
  {
  }

  /** How many leading white-space characters `trim` removes. */
  function LeadingSpace(s: string): (n: nat)
    ensures n <= |s|
  {
    SkipFrom(s, WhiteSpace, 0)
  }

  /** Where the trailing white space that `trim` removes begins. */
  function TrailingStart(s: string): (e: nat)
    ensures e <= |s|
  {
    SkipBack(s, WhiteSpace, |s|)
  }

  /** PHP `trim(s)`: the sub-string left after removing white space at both
      ends; everything removed is white space. */
  function Trim(s: string): (r: string)
    ensures LeadingSpace(s) + |r| <= |s|
    ensures r == s[LeadingSpace(s)..LeadingSpace(s) + |r|]
    ensures forall k :: 0 <= k < LeadingSpace(s) ==> IsSpace(s[k])
    ensures forall k :: LeadingSpace(s) + |r| <= k < |s| ==> IsSpace(s[k])
    ensures |r| > 0 ==> !IsSpace(r[0]) && !IsSpace(r[|r| - 1])
  {
    var l := LeadingSpace(s);
    var e := TrailingStart(s);
    if e <= l then ""
    else s[l..e]
  }

  /** A string with no white space at either end is its own trim. */
  lemma TrimClean(s: string)
    requires |s| > 0 ==> !IsSpace(s[0]) && !IsSpace(s[|s| - 1])
    ensures Trim(s) == s
  {
    if |s| > 0 {
      assert LeadingSpace(s) == 0;
      assert TrailingStart(s) == |s|;
    }
  }

  /** Trimming is idempotent. */
  lemma TrimIdempotent(s: string)
    ensures Trim(Trim(s)) == Trim(s)
  {
    TrimClean(Trim(s));
  }

  /** Trimming only removes characters. */
  lemma TrimNoNewChars(s: string, c: char)
    requires c !in s
    ensures c !in Trim(s)
  {
    var t := Trim(s);
    var a := LeadingSpace(s);
    forall i | 0 <= i < |t|
      ensures t[i] != c
    {
      assert t[i] == s[a + i];
    }
  }

  /** A carriage return at the end never survives trimming. */
  lemma TrimTrailingCR(s: string)
    ensures Trim(s + "\r") == Trim(s)
  {
    var t := s + "\r";
    var l := LeadingSpace(s);
    var e := TrailingStart(s);
    assert forall k :: 0 <= k < |s| ==> t[k] == s[k];
    SkipBackAt(t, WhiteSpace, |t|, e);
    if l < |s| {
      SkipFromAt(t, WhiteSpace, 0, l);
      assert t[l..e] == s[l..e];
    } else {
      SkipFromAt(t, WhiteSpace, 0, |t|);
    }
  }

  /** `explode(sep, s, 2)`: the text before the first `sep`, and the text after
      it when there is one. */
  function SplitFirst(s: string, sep: char): (r: (string, Option<string>))
    ensures sep !in r.0
    ensures r.1.None? ==> r.0 == s
    ensures r.1.Some? ==> s == r.0 + [sep] + r.1.value
  {
    if |s| == 0 then ("", None)
    else if s[0] == sep then ("", Some(s[1..]))
    else
      var rest := SplitFirst(s[1..], sep);
      assert s == [s[0]] + s[1..];
      ([s[0]] + rest.0, rest.1)
  }

  /** The split point is the FIRST separator: any decomposition whose head is
      free of `sep` is the one `SplitFirst` finds. */
  lemma {:induction false} SplitFirstAt(h: string, sep: char, t: string)
    requires sep !in h
    ensures SplitFirst(h + [sep] + t, sep) == (h, Some(t))
  {
    if |h| > 0 {
      assert h == [h[0]] + h[1..];
      assert (h + [sep] + t)[1..] == h[1..] + [sep] + t;
      SplitFirstAt(h[1..], sep, t);
    } else {
      assert (h + [sep] + t)[1..] == t;
    }
  }

  /** Without a separator the whole string is the head. */
  lemma {:induction false} SplitFirstNone(s: string, sep: char)
    requires sep !in s
    ensures SplitFirst(s, sep) == (s, None)
  {
    if |s| > 0 {
      SplitFirstNone(s[1..], sep);
      assert s == [s[0]] + s[1..];
    }
  }

  /** `explode(sep, s)`: every piece between separators, one more piece than
      there are separators. */
  function Split(s: string, sep: char): (parts: seq<string>)
    ensures |parts| == multiset(s)[sep] + 1
    ensures forall i :: 0 <= i < |parts| ==> sep !in parts[i]
    decreases |s|
  {
    var (head, tail) := SplitFirst(s, sep);
    match tail
    case None => [head]
    case Some(t) =>
      assert multiset(s) == multiset(head) + multiset([sep]) + multiset(t);
      [head] + Split(t, sep)
  }

  /** `implode(sep, parts)`. */
  function Join(parts: seq<string>, sep: char): string
  {
    if |parts| == 0 then ""
    else if |parts| == 1 then parts[0]
    else parts[0] + [sep] + Join(parts[1..], sep)
  }

  /** Joining the pieces of a split gives back the original string. */
  lemma {:induction false} JoinSplit(s: string, sep: char)
    ensures Join(Split(s, sep), sep) == s
    decreases |s|
  {
    var (head, tail) := SplitFirst(s, sep);
    match tail
    case None =>
    case Some(t) =>
      JoinSplit(t, sep);
      assert Split(s, sep)[1..] == Split(t, sep);
  }

  /** Splitting a join of separator-free pieces gives back the pieces. */
  lemma {:induction false} SplitJoin(parts: seq<string>, sep: char)
    requires |parts| > 0
    requires forall i :: 0 <= i < |parts| ==> sep !in parts[i]
    ensures Split(Join(parts, sep), sep) == parts
  {
    if |parts| == 1 {
      SplitFirstNone(parts[0], sep);
    } else {
      SplitFirstAt(parts[0], sep, Join(parts[1..], sep));
      SplitJoin(parts[1..], sep);
      assert parts == [parts[0]] + parts[1..];
    }
  }

  /** PHP `strtoupper` on one character: ASCII letters only. */
  function UpperChar(c: char): char {
    if 'a' <= c <= 'z' then (c as int - 32) as char else c
  }

  /** PHP `strtoupper` on a string: no ASCII lower-case letter survives, each
      one becomes its capital (32 code points lower), every other character
      is kept. */
  function Upper(s: string): (r: string)
    ensures |r| == |s|
    ensures forall i :: 0 <= i < |r| ==> !('a' <= r[i] <= 'z')
    ensures forall i :: 0 <= i < |s| && 'a' <= s[i] <= 'z' ==> r[i] as int == s[i] as int - 32
    ensures forall i :: 0 <= i < |s| && !('a' <= s[i] <= 'z') ==> r[i] == s[i]
  {
    seq(|s|, i requires 0 <= i < |s| => UpperChar(s[i]))
  }

  /** A string without ASCII lower-case letters is its own upper case. */
  lemma UpperClean(s: string)
    requires forall i :: 0 <= i < |s| ==> !('a' <= s[i] <= 'z')
    ensures Upper(s) == s
  {
    assert forall i :: 0 <= i < |s| ==> Upper(s)[i] == s[i];
  }

  predicate IsDigit(c: char) {
    '0' <= c <= '9'
  }

  /** A non-empty run of decimal digits (the port syntax this model accepts). */
  predicate IsDigits(s: string) {
    |s| > 0 && forall i :: 0 <= i < |s| ==> IsDigit(s[i])
  }

  /** The value of a run of decimal digits, most significant first. */
  function DigitsValue(s: string): nat
    requires forall i :: 0 <= i < |s| ==> IsDigit(s[i])
  {
    if |s| == 0 then 0
    else
      assert IsDigit(s[|s| - 1]);
      DigitsValue(s[..|s| - 1]) * 10 + (s[|s| - 1] as int - '0' as int)
  }

  function DigitChar(d: nat): (c: char)
    requires d < 10
    ensures IsDigit(c) && c as int - '0' as int == d
  {
    ('0' as int + d) as char
  }

  /** The decimal text of `n`, as PHP writes an integer into a string: the
      shortest one, so it starts with `0` only when it is `0` itself. */
  function NatToString(n: nat): (s: string)
    ensures IsDigits(s)
    ensures s[0] == '0' ==> s == "0"
    ensures n == 0 <==> s == "0"
  {
    if n < 10 then [DigitChar(n)] else NatToString(n / 10) + [DigitChar(n % 10)]
  }

  /** Reading back the decimal text of `n` gives `n`. */
  lemma {:induction false} DigitsValueOfNatToString(n: nat)
    ensures DigitsValue(NatToString(n)) == n
  {
    if n >= 10 {
      DigitsValueOfNatToString(n / 10);
      var s := NatToString(n);
      assert s[..|s| - 1] == NatToString(n / 10);
    }
  }
}
