/** The few operations on Python strings that the driver relies on:
    `endswith`, `in`, `split` on one character, `str` of an integer and the
    whitespace-tolerant `int(...)` conversion. Text is a sequence of
    characters; the driver only ever exchanges ASCII. */
module Text {

  datatype Option<+T> = None | Some(value: T)

  predicate StartsWith(s: string, prefix: string) {
    |prefix| <= |s| && s[..|prefix|] == prefix
  }

  /** Python's `s.endswith(suffix)`. */
  predicate EndsWith(s: string, suffix: string)
    ensures EndsWith(s, suffix) <==> exists k :: 0 <= k <= |s| && s[k..] == suffix
  {
    |suffix| <= |s| && s[|s| - |suffix|..] == suffix
  }

  /** Python's `pattern in s`: some position of `s` starts with `pattern`. */
  predicate Contains(s: string, pattern: string)
    ensures StartsWith(s, pattern) ==> Contains(s, pattern)
    ensures Contains(s, pattern) ==> |pattern| <= |s|
  {
    assert s[0..] == s;
    exists i :: 0 <= i <= |s| && StartsWith(s[i..], pattern)
  }

  // ---------------------------------------------------------------------
  // split
  // ---------------------------------------------------------------------

  /** Python's `s.split(sep)` for a one-character separator: the maximal
      runs between separators, so there is always one more field than there
      are separators, and empty fields are kept. */
  function Split(s: string, sep: char): (fields: seq<string>)
    ensures |fields| >= 1
    ensures forall k :: 0 <= k < |fields| ==> sep !in fields[k]
  {
    if s == [] then [""]
    else
      var rest := Split(s[1..], sep);
      if s[0] == sep then [""] + rest
      else [[s[0]] + rest[0]] + rest[1..]
  }

  /** Python's `sep.join(fields)`. */
  function Join(fields: seq<string>, sep: char): string
    requires |fields| >= 1
  {
    if |fields| == 1 then fields[0] else fields[0] + [sep] + Join(fields[1..], sep)
  }

  /** Splitting loses nothing: joining the fields back gives the text. */
  lemma {:induction false} JoinSplit(s: string, sep: char)
    ensures Join(Split(s, sep), sep) == s
  {
    if s != [] {
      var rest := Split(s[1..], sep);
      JoinSplit(s[1..], sep);
      if s[0] == sep {
        assert ([""] + rest)[1..] == rest;
      } else if |rest| > 1 {
        var fields := [[s[0]] + rest[0]] + rest[1..];
        assert fields[1..] == rest[1..];
        assert Join(rest, sep) == rest[0] + [sep] + Join(rest[1..], sep);
        assert s == [s[0]] + s[1..];
      } else {
        assert s == [s[0]] + s[1..];
      }
    }
  }

  /** Text without the separator is a single field. */
  lemma {:induction false} SplitNoSeparator(s: string, sep: char)
    requires sep !in s
    ensures Split(s, sep) == [s]
  {
    if s != [] {
      assert sep !in s[1..] by {
        forall k | 0 <= k < |s[1..]| ensures s[1..][k] != sep { assert s[1..][k] == s[k + 1]; }
      }
      SplitNoSeparator(s[1..], sep);
      assert [s[0]] + s[1..] == s;
    }
  }

  /** The text before the first separator is the first field, and the
      remaining fields are those of the text after it. */
  lemma {:induction false} SplitAtFirst(a: string, sep: char, b: string)
    requires sep !in a
    ensures Split(a + [sep] + b, sep) == [a] + Split(b, sep)
  {
    var s := a + [sep] + b;
    if a == [] {
      assert s[0] == sep && s[1..] == b;
    } else {
      assert s[0] == a[0] && a[0] != sep;
      assert s[1..] == a[1..] + [sep] + b;
      assert sep !in a[1..] by {
        forall k | 0 <= k < |a[1..]| ensures a[1..][k] != sep { assert a[1..][k] == a[k + 1]; }
      }
      SplitAtFirst(a[1..], sep, b);
      assert [a[0]] + a[1..] == a;
    }
  }

  /** The fields of text with exactly one separator are the text before
      and the text after it. */
  lemma SplitTwoFields(head: string, sep: char, body: string)
    requires sep !in head && sep !in body
    ensures Split(head + [sep] + body, sep) == [head, body]
  {
    SplitAtFirst(head, sep, body);
    SplitNoSeparator(body, sep);
  }

  /** Field 1 of a split is the text between the first and the second
      separator (or the end of the text when there is no second one). */
  lemma SplitSecondField(head: string, sep: char, body: string, tail: string)
    requires sep !in head && sep !in body
    requires tail == [] || tail[0] == sep
    ensures |Split(head + [sep] + body + tail, sep)| >= 2
    ensures Split(head + [sep] + body + tail, sep)[1] == body
  {
    if tail == [] {
      assert head + [sep] + body + tail == head + [sep] + body;
      SplitTwoFields(head, sep, body);
    } else {
      var rest := tail[1..];
      assert head + [sep] + body + tail == head + [sep] + (body + [sep] + rest);
      SplitAtFirst(head, sep, body + [sep] + rest);
      SplitAtFirst(body, sep, rest);
    }
  }

  // ---------------------------------------------------------------------
  // whitespace
  // ---------------------------------------------------------------------

  /** ASCII whitespace as Python's `str.strip()` sees it: space, tab, line
      feed, vertical tab, form feed, carriage return and the four separators
      `\x1c` to `\x1f`. */
  predicate IsSpace(c: char) {
    c == ' ' || '\t' <= c <= '\r' || '\U{1c}' <= c <= '\U{1f}'
  }

  predicate AllSpace(s: string) {
    forall i :: 0 <= i < |s| ==> IsSpace(s[i])
  }

  function TrimStart(s: string): string {
    if s != [] && IsSpace(s[0]) then TrimStart(s[1..]) else s
  }

  function TrimEnd(s: string): string {
    if s != [] && IsSpace(s[|s| - 1]) then TrimEnd(s[..|s| - 1]) else s
  }

  /** Python's `s.strip()`. */
  function Strip(s: string): string {
    TrimEnd(TrimStart(s))
  }

  /** Trailing whitespace, such as a line terminator, is dropped and the
      text before it is kept. */
  lemma {:induction false} TrimEndDropsSpace(s: string, eol: string)
    requires s != [] && !IsSpace(s[|s| - 1]) && AllSpace(eol)
    ensures TrimEnd(s + eol) == s
  {
    if eol == [] {
      assert s + eol == s;
    } else {
      var t := s + eol;
      assert t[|t| - 1] == eol[|eol| - 1];
      assert t[..|t| - 1] == s + eol[..|eol| - 1];
      TrimEndDropsSpace(s, eol[..|eol| - 1]);
    }
  }

  // ---------------------------------------------------------------------
  // decimal integers
  // ---------------------------------------------------------------------

  predicate IsDigit(c: char) {
    '0' <= c <= '9'
  }

  predicate AllDigits(s: string) {
    forall i :: 0 <= i < |s| ==> IsDigit(s[i])
  }

  function DigitChar(d: nat): (c: char)
    requires d < 10
    ensures IsDigit(c) && c as int - '0' as int == d
  {
    ('0' as int + d) as char
  }

  /** The decimal digits of `n`, most significant first, without leading
      zeros. */
  function Digits(n: nat): (s: string)
    ensures s != [] && AllDigits(s)
  {
    if n < 10 then [DigitChar(n)] else Digits(n / 10) + [DigitChar(n % 10)]
  }

  /** The number a string of decimal digits denotes. */
  function DigitsValue(s: string): nat
    requires AllDigits(s)
  {
    if s == [] then 0 else DigitsValue(s[..|s| - 1]) * 10 + (s[|s| - 1] as int - '0' as int)
  }

  /** Python's `str(v)` on an integer. */
  function Str(v: int): (s: string)
    ensures s != [] && !IsSpace(s[0]) && !IsSpace(s[|s| - 1])
    ensures forall i :: 0 <= i < |s| ==> s[i] == '-' || IsDigit(s[i])
  {
    if v < 0 then "-" + Digits(-v) else Digits(v)
  }

  /** A strict decimal integer: an optional sign and at least one digit. */
  function ParseDecimal(s: string): Option<int> {
    if |s| > 1 && (s[0] == '-' || s[0] == '+') && AllDigits(s[1..]) then
      var magnitude: int := DigitsValue(s[1..]);
      Some(if s[0] == '-' then -magnitude else magnitude)
    else if s != [] && AllDigits(s) then
      Some(DigitsValue(s))
    else
      None
  }

  /** Python's `int(s)`: surrounding whitespace is ignored; `None` stands
      for the ValueError raised on anything else. */
  function ParseInt(s: string): (r: Option<int>)
    ensures AllSpace(s) ==> r == None
  {
    TrimStartAllSpace(s);
    ParseDecimal(Strip(s))
  }

  /** Blank text strips to nothing. */
  lemma {:induction false} TrimStartAllSpace(s: string)
    ensures AllSpace(s) ==> TrimStart(s) == [] && Strip(s) == []
  {
    if s != [] && AllSpace(s) {
      assert AllSpace(s[1..]) by {
        forall k | 0 <= k < |s[1..]| ensures IsSpace(s[1..][k]) { assert s[1..][k] == s[k + 1]; }
      }
      TrimStartAllSpace(s[1..]);
    }
  }

  lemma {:induction false} TrimStartKeepsLast(s: string)
    requires s != [] && !IsSpace(s[|s| - 1])
    ensures TrimStart(s) != [] && TrimStart(s)[|TrimStart(s)| - 1] == s[|s| - 1]
  {
    if IsSpace(s[0]) {
      TrimStartKeepsLast(s[1..]);
    }
  }

  /** Text that ends in ';', such as an unstripped frame terminator, is not
      an integer to `int(...)`. */
  lemma ParseIntRejectsTerminator(s: string)
    requires s != [] && s[|s| - 1] == ';'
    ensures ParseInt(s) == None
  {
    TrimStartKeepsLast(s);
    var t := TrimStart(s);
    assert Strip(s) == t;
    assert !IsDigit(t[|t| - 1]);
    if |t| > 1 {
      assert t[1..][|t| - 2] == t[|t| - 1];
    }
  }

  lemma {:induction false} DigitsRoundTrip(n: nat)
    ensures DigitsValue(Digits(n)) == n
  {
    var s := Digits(n);
    if n < 10 {
      assert s[..|s| - 1] == [];
    } else {
      assert s[..|s| - 1] == Digits(n / 10);
      DigitsRoundTrip(n / 10);
    }
  }

  /** `str` of an integer reads back as that integer. */
  lemma StrRoundTrip(v: int)
    ensures ParseDecimal(Str(v)) == Some(v)
  {
    var s := Str(v);
    if v < 0 {
      assert s[1..] == Digits(-v);
      DigitsRoundTrip(-v);
    } else {
      DigitsRoundTrip(v);
    }
  }

  /** `int(str(v) + eol)` is `v` for any trailing whitespace `eol`. */
  lemma ParseIntStr(v: int, eol: string)
    requires AllSpace(eol)
    ensures ParseInt(Str(v) + eol) == Some(v)
  {
    var s := Str(v) + eol;
    assert s[0] == Str(v)[0];
    assert TrimStart(s) == s;
    TrimEndDropsSpace(Str(v), eol);
    StrRoundTrip(v);
  }

  /** Different integers are written differently. */
  lemma StrInjective(v: int, w: int)
    requires Str(v) == Str(w)
    ensures v == w
  {
    StrRoundTrip(v);
    StrRoundTrip(w);
  }
}
