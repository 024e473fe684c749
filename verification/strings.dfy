/** The pieces of Python's `str` behaviour the model relies on: ASCII case mapping,
    `str.split(sep)`, `str.split(sep, maxsplit=1)`, `sep.join(parts)`, `str.strip(chars)`,
    `str.startswith` and `int(text)` on decimal text. */
module Strings {
  import opened Wrappers

  // ---------------------------------------------------------------------------
  // Case mapping (ASCII letters only)
  // ---------------------------------------------------------------------------

  function LowerChar(c: char): char {
    if 'A' <= c <= 'Z' then (c as int + 32) as char else c
  }

  function UpperChar(c: char): char {
    if 'a' <= c <= 'z' then (c as int - 32) as char else c
  }

  /** `s.lower()` */
  function Lower(s: string): string {
    seq(|s|, i requires 0 <= i < |s| => LowerChar(s[i]))
  }

  /** `s.upper()` */
  function Upper(s: string): string {
    seq(|s|, i requires 0 <= i < |s| => UpperChar(s[i]))
  }

  predicate IsUpperCase(s: string) {
    forall i :: 0 <= i < |s| ==> !('a' <= s[i] <= 'z')
  }

  /** Upper-casing yields a string with no lower-case letter, of the same length,
      and leaves an already upper-cased string as it is. */
  lemma UpperNormalises(s: string)
    ensures |Upper(s)| == |s|
    ensures IsUpperCase(Upper(s))
    ensures Upper(Upper(s)) == Upper(s)
    ensures IsUpperCase(s) ==> Upper(s) == s
  {
  }

  /** Lower-casing loses nothing that upper-casing needs. */
  lemma UpperOfLower(s: string)
    ensures Upper(Lower(s)) == Upper(s)
  {
    assert forall i :: 0 <= i < |s| ==> Upper(Lower(s))[i] == Upper(s)[i];
  }

  /** Two strings have the same lower-case form exactly when they agree letter by letter
      up to ASCII case. */
  lemma LowerEqualIffCaseInsensitive(s: string, t: string)
    ensures Lower(s) == Lower(t) <==>
              (|s| == |t| && forall i :: 0 <= i < |s| ==> LowerChar(s[i]) == LowerChar(t[i]))
  {
    if Lower(s) == Lower(t) {
      assert |s| == |Lower(s)| == |Lower(t)| == |t|;
      forall i | 0 <= i < |s|
        ensures LowerChar(s[i]) == LowerChar(t[i])
      {
        assert Lower(s)[i] == Lower(t)[i];
      }
    }
    if |s| == |t| && forall i :: 0 <= i < |s| ==> LowerChar(s[i]) == LowerChar(t[i]) {
      assert forall i :: 0 <= i < |s| ==> Lower(s)[i] == Lower(t)[i];
    }
  }

  // ---------------------------------------------------------------------------
  // Searching for a separator
  // ---------------------------------------------------------------------------

  predicate OccursAt(s: string, sep: string, i: int) {
    0 <= i && i + |sep| <= |s| && s[i..i + |sep|] == sep
  }

  ghost predicate Contains(s: string, sep: string) {
    exists i :: OccursAt(s, sep, i)
  }

  /** The first position at or after `from` where `sep` occurs in `s`. */
  function FindFrom(s: string, sep: string, from: nat): (r: Option<nat>)
    requires |sep| > 0
    decreases |s| - from
    ensures r.Some? ==> from <= r.value && OccursAt(s, sep, r.value)
    ensures r.Some? ==> forall j :: from <= j < r.value ==> !OccursAt(s, sep, j)
    ensures r.None? ==> forall j :: from <= j ==> !OccursAt(s, sep, j)
  {
    if from + |sep| > |s| then None
    else if s[from..from + |sep|] == sep then Some(from)
    else FindFrom(s, sep, from + 1)
  }

  /** `s.find(sep)`, with `None` for -1. */
  function Find(s: string, sep: string): (r: Option<nat>)
    requires |sep| > 0
    ensures r.Some? ==> OccursAt(s, sep, r.value) && forall j :: 0 <= j < r.value ==> !OccursAt(s, sep, j)
    ensures r.None? <==> !Contains(s, sep)
  {
    FindFrom(s, sep, 0)
  }

  predicate StartsWith(s: string, prefix: string) {
    |prefix| <= |s| && s[..|prefix|] == prefix
  }

  // ---------------------------------------------------------------------------
  // split / join
  // ---------------------------------------------------------------------------

  /** `s.split(sep)`: the pieces between successive left-to-right occurrences of `sep`.
      (Python rejects an empty separator with ValueError.) */
  function Split(s: string, sep: string): (parts: seq<string>)
    requires |sep| > 0
    decreases |s|
    ensures |parts| >= 1
  {
    match Find(s, sep)
    case None => [s]
    case Some(i) => [s[..i]] + Split(s[i + |sep|..], sep)
  }

  /** `sep.join(parts)` */
  function Join(parts: seq<string>, sep: string): string {
    if |parts| == 0 then ""
    else if |parts| == 1 then parts[0]
    else parts[0] + sep + Join(parts[1..], sep)
  }

  /** Joining the pieces of a split with the same separator gives the original text back. */
  lemma {:induction false} JoinSplit(s: string, sep: string)
    requires |sep| > 0
    ensures Join(Split(s, sep), sep) == s
    decreases |s|
  {
    var f := Find(s, sep);
    if f.Some? {
      var i := f.value;
      var rest := s[i + |sep|..];
      var tail := Split(rest, sep);
      SplitAtFirst(s, sep);
      JoinSplit(rest, sep);
      JoinCons(s[..i], tail, sep);
      Around(s, sep, i);
    }
  }

  /** Split cuts at the first occurrence, then splits what follows it. */
  lemma SplitAtFirst(s: string, sep: string)
    requires |sep| > 0 && Find(s, sep).Some?
    ensures var i := Find(s, sep).value;
      && i + |sep| <= |s| && OccursAt(s, sep, i)
      && Split(s, sep) == [s[..i]] + Split(s[i + |sep|..], sep)
  {
  }

  /** An occurrence of the separator cuts the text into before, separator and after. */
  lemma Around(s: string, sep: string, i: int)
    requires OccursAt(s, sep, i)
    ensures s == s[..i] + sep + s[i + |sep|..]
  {
    assert s == s[..i] + s[i..i + |sep|] + s[i + |sep|..];
  }

  /** Joining a piece in front of at least one other puts the separator between them. */
  lemma JoinCons(head: string, tail: seq<string>, sep: string)
    requires |tail| >= 1
    ensures Join([head] + tail, sep) == head + sep + Join(tail, sep)
  {
    assert ([head] + tail)[1..] == tail;
  }

  /** No piece of a split contains the separator. */
  lemma {:induction false} SplitPiecesFree(s: string, sep: string)
    requires |sep| > 0
    ensures forall k :: 0 <= k < |Split(s, sep)| ==> !Contains(Split(s, sep)[k], sep)
    decreases |s|
  {
    match Find(s, sep)
    case None =>
    case Some(i) =>
      var rest := s[i + |sep|..];
      SplitPiecesFree(rest, sep);
      var head := s[..i];
      forall j | OccursAt(head, sep, j)
        ensures false
      {
        assert head[j..j + |sep|] == s[j..j + |sep|];
        assert OccursAt(s, sep, j);
      }
  }

  /** Splitting a joined list gives the list back when no part contains the separator's
      first character (so the only occurrences are the inserted separators). */
  lemma {:induction false} SplitJoin(parts: seq<string>, sep: string)
    requires |sep| > 0 && |parts| > 0
    requires forall k :: 0 <= k < |parts| ==> sep[0] !in parts[k]
    ensures Split(Join(parts, sep), sep) == parts
    decreases |parts|
  {
    var head := parts[0];
    if |parts| == 1 {
      NoFirstCharNoOccurrence(head, sep);
    } else {
      var rest := Join(parts[1..], sep);
      var s := head + sep + rest;
      assert Join(parts, sep) == s;
      forall j | 0 <= j < |head|
        ensures !OccursAt(s, sep, j)
      {
        assert s[j] == head[j];
      }
      assert s[|head|..|head| + |sep|] == sep;
      assert OccursAt(s, sep, |head|);
      assert Find(s, sep) == Some(|head|);
      assert s[..|head|] == head;
      assert s[|head| + |sep|..] == rest;
      SplitJoin(parts[1..], sep);
      assert parts == [head] + parts[1..];
    }
  }

  lemma NoFirstCharNoOccurrence(s: string, sep: string)
    requires |sep| > 0 && sep[0] !in s
    ensures Split(s, sep) == [s]
  {
    forall j | 0 <= j && j + |sep| <= |s|
      ensures !OccursAt(s, sep, j)
    {
      assert s[j] in s;
    }
  }

  /** `s.split(sep, maxsplit=1)`: the text before and after the first occurrence. */
  function SplitOnce(s: string, sep: string): (parts: seq<string>)
    requires |sep| > 0
    ensures Contains(s, sep) <==> |parts| == 2
    ensures !Contains(s, sep) <==> parts == [s]
    ensures |parts| == 2 ==> parts[0] + sep + parts[1] == s && !Contains(parts[0], sep)
  {
    match Find(s, sep)
    case None => [s]
    case Some(i) =>
      var head := s[..i];
      assert s == head + sep + s[i + |sep|..];
      assert !Contains(head, sep) by {
        forall j | OccursAt(head, sep, j)
          ensures false
        {
          assert head[j..j + |sep|] == s[j..j + |sep|];
          assert OccursAt(s, sep, j);
        }
      }
      [head, s[i + |sep|..]]
  }

  // ---------------------------------------------------------------------------
  // strip(chars)
  // ---------------------------------------------------------------------------

  /** The end of the run of characters from `chars` that starts at `i`. */
  function RunEnd(s: string, chars: set<char>, i: nat): (j: nat)
    requires i <= |s|
    ensures i <= j <= |s|
    ensures forall k :: i <= k < j ==> s[k] in chars
    ensures j < |s| ==> s[j] !in chars
    decreases |s| - i
  {
    if i < |s| && s[i] in chars then RunEnd(s, chars, i + 1) else i
  }

  /** The start of the run of characters from `chars` that ends at `j`, looking no further
      back than `lo`. */
  function RunStart(s: string, chars: set<char>, lo: nat, j: nat): (i: nat)
    requires lo <= j <= |s|
    ensures lo <= i <= j
    ensures forall k :: i <= k < j ==> s[k] in chars
    ensures i > lo ==> s[i - 1] !in chars
    decreases j
  {
    if j > lo && s[j - 1] in chars then RunStart(s, chars, lo, j - 1) else j
  }

  /** How many characters `s.lstrip(chars)` drops. */
  function Leading(s: string, chars: set<char>): (n: nat)
    ensures n <= |s|
  {
    RunEnd(s, chars, 0)
  }

  /** `s.strip(chars)`: drops every leading and trailing character that belongs to the SET
      `chars` (the order and multiplicity of `chars` play no part). The result is the slice
      of `s` that starts after the leading run and ends before the trailing run, and when it
      is not empty it starts and ends with characters outside the set. */
  function Strip(s: string, chars: set<char>): (r: string)
    ensures var i := Leading(s, chars);
              && i + |r| <= |s| && r == s[i..i + |r|]
              && (forall k :: 0 <= k < i ==> s[k] in chars)
              && (forall k :: i + |r| <= k < |s| ==> s[k] in chars)
    ensures |r| > 0 ==> r[0] !in chars && r[|r| - 1] !in chars
  {
    var i := Leading(s, chars);
    var j := RunStart(s, chars, i, |s|);
    assert i < j ==> s[i] !in chars;
    s[i..j]
  }

  /** Stripping is idempotent. */
  lemma StripIdempotent(s: string, chars: set<char>)
    ensures Strip(Strip(s, chars), chars) == Strip(s, chars)
  {
    var r := Strip(s, chars);
    var i := Leading(r, chars);
    assert i == 0 by {
      if |r| > 0 {
        assert r[0] !in chars;
      }
    }
    var j := RunStart(r, chars, 0, |r|);
    assert j == |r| by {
      if |r| > 0 {
        assert r[|r| - 1] !in chars;
      }
    }
  }

  /** The characters of a string, as a set (the argument of `str.strip` is read this way). */
  function CharSet(s: string): (cs: set<char>)
    ensures forall c :: c in cs <==> c in s
  {
    set c | c in s
  }

  // ---------------------------------------------------------------------------
  // int(text) on decimal text
  // ---------------------------------------------------------------------------

  predicate IsDigit(c: char) {
    '0' <= c <= '9'
  }

  predicate AllDigits(s: string) {
    forall i :: 0 <= i < |s| ==> IsDigit(s[i])
  }

  function DigitsValue(s: string): nat
    requires AllDigits(s)
  {
    if |s| == 0 then 0
    else DigitsValue(s[..|s| - 1]) * 10 + (s[|s| - 1] as int - '0' as int)
  }

  /** `int(s)` for a string: an optional sign followed by at least one decimal digit;
      anything else is a ValueError (`None`). */
  function ParseInt(s: string): (r: Option<int>)
    ensures r.Some? <==>
              || (|s| > 0 && AllDigits(s))
              || (|s| > 1 && (s[0] == '+' || s[0] == '-') && AllDigits(s[1..]))
  {
    if |s| > 0 && (s[0] == '+' || s[0] == '-') then
      if |s| > 1 && AllDigits(s[1..]) then
        var v: int := DigitsValue(s[1..]);
        Some(if s[0] == '-' then -v else v)
      else None
    else if |s| > 0 && AllDigits(s) then Some(DigitsValue(s))
    else None
  }

  /** `str(n)` for a natural number. */
  function NatToDecimal(n: nat): (s: string)
    ensures |s| > 0 && AllDigits(s)
  {
    if n < 10 then [('0' as int + n) as char]
    else NatToDecimal(n / 10) + [('0' as int + n % 10) as char]
  }

  /** `int(str(n)) == n`: decimal printing and parsing are inverse. */
  lemma {:induction false} ParseIntOfDecimal(n: nat)
    ensures DigitsValue(NatToDecimal(n)) == n
    ensures ParseInt(NatToDecimal(n)) == Some(n)
  {
    var s := NatToDecimal(n);
    if n >= 10 {
      ParseIntOfDecimal(n / 10);
      assert s[..|s| - 1] == NatToDecimal(n / 10);
    }
  }
}
