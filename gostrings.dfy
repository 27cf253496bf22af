/** The pieces of Go's `strings`, `fmt` and `strconv` behaviour the core relies on. */
module GoStrings {

  /** `strings.Join(elems, sep)`. */
  function Join(elems: seq<string>, sep: string): string
  {
    if |elems| == 0 then ""
    else if |elems| == 1 then elems[0]
    else elems[0] + sep + Join(elems[1..], sep)
  }

  /** Index of the first `c` in `s` (`strings.IndexByte`). */
  function IndexOf(s: string, c: char): (i: int)
    ensures -1 <= i < |s|
    ensures i == -1 <==> c !in s
    ensures 0 <= i ==> s[i] == c && c !in s[..i]
  {
    if |s| == 0 then -1
    else if s[0] == c then 0
    else
      var j := IndexOf(s[1..], c);
      if j == -1 then -1
      else
        assert s[..j + 1] == [s[0]] + s[1..][..j];
        j + 1
  }

  /** `strings.LastIndex(s, string(c))`: -1 when `c` does not occur. */
  function LastIndex(s: string, c: char): (i: int)
    ensures -1 <= i < |s|
    ensures i == -1 <==> c !in s
    ensures 0 <= i ==> s[i] == c && c !in s[i + 1..]
  {
    if |s| == 0 then -1
    else if s[|s| - 1] == c then |s| - 1
    else
      var j := LastIndex(s[..|s| - 1], c);
      assert s[..|s| - 1] + [s[|s| - 1]] == s;
      assert j >= 0 ==> s[j + 1..] == s[..|s| - 1][j + 1..] + [s[|s| - 1]];
      j
  }

  /** `strings.Split(s, string(sep))` for a one-character separator. */
  function Split(s: string, sep: char): (parts: seq<string>)
    ensures |parts| >= 1
    ensures forall i :: 0 <= i < |parts| ==> sep !in parts[i]
    decreases |s|
  {
    var i := IndexOf(s, sep);
    if i == -1 then [s] else [s[..i]] + Split(s[i + 1..], sep)
  }

  /** The part of `strings.Cut(s, string(sep))` before the separator. */
  function CutBefore(s: string, sep: char): (before: string)
  {
    var i := IndexOf(s, sep);
    if i == -1 then s else s[..i]
  }

  /** Splitting and rejoining give back the original text. */
  lemma {:induction false} JoinSplit(s: string, sep: char)
    ensures Join(Split(s, sep), [sep]) == s
    decreases |s|
  {
    var i := IndexOf(s, sep);
    if i != -1 {
      var rest := Split(s[i + 1..], sep);
      JoinSplit(s[i + 1..], sep);
      assert Split(s, sep) == [s[..i]] + rest;
      assert s == s[..i] + [sep] + s[i + 1..];
    }
  }

  /** Cut keeps exactly the text before the first separator: a prefix of `s`
      without `sep`, followed in `s` by `sep` unless it is all of `s`. It is
      the first field of Split. */
  lemma CutBeforeIsFirstField(s: string, sep: char)
    ensures var b := CutBefore(s, sep);
      b <= s && sep !in b && (b == s || s[|b|] == sep) && b == Split(s, sep)[0]
  {
  }

  /** Cut ignores everything after the first separator. */
  lemma {:induction false} CutBeforeIgnoresTail(first: string, sep: char, tail: string)
    requires sep !in first
    ensures CutBefore(first + [sep] + tail, sep) == first
  {
    var s := first + [sep] + tail;
    var i := IndexOf(s, sep);
    assert s[|first|] == sep;
    assert s[..|first|] == first;
  }

  /** The decimal digits of `n`, as `fmt`'s `%d` writes a non-negative int. */
  function Decimal(n: nat): (s: string)
    ensures |s| >= 1 && forall k :: 0 <= k < |s| ==> '0' <= s[k] <= '9'
  {
    if n < 10 then [DigitChar(n)] else Decimal(n / 10) + [DigitChar(n % 10)]
  }

  function DigitChar(d: nat): (c: char)
    requires d < 10
    ensures '0' <= c <= '9'
  {
    (('0' as int) + d) as char
  }

  /** Reads a string of decimal digits back (`strconv.Atoi` on digits only). */
  function ParseDecimal(s: string): nat
    requires forall k :: 0 <= k < |s| ==> '0' <= s[k] <= '9'
  {
    if |s| == 0 then 0
    else ParseDecimal(s[..|s| - 1]) * 10 + ((s[|s| - 1] as int) - ('0' as int))
  }

  /** `%d` loses nothing: the entry number in an error message reads back. */
  lemma {:induction false} DecimalRoundTrip(n: nat)
    ensures ParseDecimal(Decimal(n)) == n
  {
    var s := Decimal(n);
    if n >= 10 {
      DecimalRoundTrip(n / 10);
      assert s[..|s| - 1] == Decimal(n / 10);
      assert (s[|s| - 1] as int) - ('0' as int) == n % 10;
      assert ParseDecimal(s) == ParseDecimal(Decimal(n / 10)) * 10 + n % 10;
    } else {
      assert s == [DigitChar(n)] && ParseDecimal(s) == ParseDecimal([]) * 10 + n;
    }
  }
}
