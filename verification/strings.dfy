/** The optional value used wherever the source signals "absent" or fails. */
module Options {
  datatype Option<+T> = None | Some(value: T)
}

/** String helpers shared by the node renderers, the chunker and the Markdown
    re-renderer. Go strings are byte strings and `len` counts bytes; here a
    string is a `seq<char>` and `|s|` plays the role of `len(s)`. */
module Strings {

  /** Concatenation of a sequence of strings, front to back. */
  function Concat(ss: seq<string>): (r: string)
  {
    if ss == [] then "" else ss[0] + Concat(ss[1..])
  }

  lemma {:induction false} ConcatAppend(a: seq<string>, b: seq<string>)
    ensures Concat(a + b) == Concat(a) + Concat(b)
  {
    if a == [] {
      assert a + b == b;
    } else {
      assert (a + b)[1..] == a[1..] + b;
      ConcatAppend(a[1..], b);
    }
  }

  /** Concatenation of a sequence of sequences. */
  function Flatten<T>(ss: seq<seq<T>>): (r: seq<T>)
  {
    if ss == [] then [] else ss[0] + Flatten(ss[1..])
  }

  lemma ConcatSnoc(a: seq<string>, s: string)
    ensures Concat(a + [s]) == Concat(a) + s
  {
    ConcatAppend(a, [s]);
  }

  /** `n` copies of `s` (none when `n` is not positive), as the Go loop
      `for i := 0; i < n; i++ { r += s }` and `strings.Repeat` build it. */
  function Repeat(s: string, n: int): (r: string)
    ensures |r| == (if n < 0 then 0 else n * |s|)
    decreases n
  {
    if n <= 0 then "" else s + Repeat(s, n - 1)
  }

  /** Repeating a string made of one character yields only that character. */
  lemma {:induction false} RepeatUniform(s: string, n: int, c: char)
    requires forall j :: 0 <= j < |s| ==> s[j] == c
    ensures forall i :: 0 <= i < |Repeat(s, n)| ==> Repeat(s, n)[i] == c
    decreases n
  {
    if n > 0 {
      RepeatUniform(s, n - 1, c);
    }
  }

  /** The elements of `ss` separated by `sep` (Go's `strings.Join`). */
  function Join(ss: seq<string>, sep: string): (r: string)
  {
    if ss == [] then "" else if |ss| == 1 then ss[0] else ss[0] + sep + Join(ss[1..], sep)
  }

  lemma {:induction false} JoinSnoc(ss: seq<string>, sep: string, s: string)
    requires ss != []
    ensures Join(ss + [s], sep) == Join(ss, sep) + sep + s
  {
    if |ss| == 1 {
      assert (ss + [s])[1..] == [s];
    } else {
      assert (ss + [s])[1..] == ss[1..] + [s];
      JoinSnoc(ss[1..], sep, s);
    }
  }

  /** Joining a sequence with a first element `m`. */
  lemma JoinFront(m: string, rest: seq<string>, sep: string)
    ensures Join([m] + rest, sep) == if rest == [] then m else m + (sep + Join(rest, sep))
  {
    assert ([m] + rest)[0] == m && ([m] + rest)[1..] == rest;
    if rest != [] {
      assert m + sep + Join(rest, sep) == m + (sep + Join(rest, sep));
    }
  }

  /** A non-empty sequence is its front with its last element appended. */
  lemma {:induction false} FrontLast<T>(s: seq<T>)
    requires s != []
    ensures s[..|s| - 1] + [s[|s| - 1]] == s
  {
  }

  /** A non-empty join ends with its last element, after the join of the
      others and a separator when there are others. */
  lemma {:induction false} JoinLast(ss: seq<string>, sep: string)
    requires ss != []
    ensures Join(ss, sep) == Join(ss[..|ss| - 1], sep) + ((if |ss| > 1 then sep else "") + ss[|ss| - 1])
  {
    var n := |ss|;
    assert ss[..n - 1] + [ss[n - 1]] == ss;
    if n > 1 {
      JoinSnoc(ss[..n - 1], sep, ss[n - 1]);
      assert Join(ss[..n - 1], sep) + sep + ss[n - 1] == Join(ss[..n - 1], sep) + (sep + ss[n - 1]);
    } else {
      assert ss[..n - 1] == [];
    }
  }

  predicate IsDigit(c: char)
  {
    '0' <= c <= '9'
  }

  function DigitChar(d: nat): (c: char)
    requires d < 10
    ensures IsDigit(c) && c as int - '0' as int == d
  {
    (d + '0' as int) as char
  }

  /** Decimal rendering of a natural number, most significant digit first. */
  function NatToString(n: nat): (r: string)
    ensures |r| > 0
    ensures forall i :: 0 <= i < |r| ==> IsDigit(r[i])
  {
    if n < 10 then [DigitChar(n)] else NatToString(n / 10) + [DigitChar(n % 10)]
  }

  /** Go's `strconv.Itoa`: decimal rendering with a leading '-' for negatives. */
  function IntToString(n: int): (r: string)
    ensures |r| > 0
    ensures n >= 0 <==> IsDigit(r[0])
  {
    if n < 0 then "-" + NatToString(-n) else NatToString(n)
  }

  /** Value of a string of decimal digits; the inverse of `NatToString`. */
  function ParseDecimal(s: string): (n: nat)
    requires forall i :: 0 <= i < |s| ==> IsDigit(s[i])
  {
    if s == [] then 0 else
      assert IsDigit(s[|s| - 1]);
      10 * ParseDecimal(s[..|s| - 1]) + (s[|s| - 1] as int - '0' as int)
  }

  /** Reading the decimal rendering back yields the number: the rendering is
      faithful and the counters the re-renderer prints can be recovered. */
  lemma {:induction false} NatToStringRoundTrip(n: nat)
    ensures ParseDecimal(NatToString(n)) == n
  {
    if n >= 10 {
      var s := NatToString(n);
      assert s[..|s| - 1] == NatToString(n / 10);
      NatToStringRoundTrip(n / 10);
    }
  }
}
