/** The JavaScript string built-ins the server relies on, over `seq<char>`:
    decimal rendering and `Number(...)`, `includes`, `toLowerCase`,
    `replace(/\s+/g, '-')`, `split(':')`, `padStart(2, '0')` and the first
    match of `/(\d+)/`. */
module JsText {
  import opened Nullable

  predicate IsDigit(c: char) { '0' <= c <= '9' }

  predicate AllDigits(s: string) { forall i :: 0 <= i < |s| ==> IsDigit(s[i]) }

  function DigitValue(c: char): nat
    requires IsDigit(c)
  {
    c as int - '0' as int
  }

  function DigitChar(d: nat): (c: char)
    requires d < 10
    ensures IsDigit(c) && DigitValue(c) == d
  {
    ('0' as int + d) as char
  }

  /** The value of a decimal digit string, most significant digit first. */
  function DigitsValue(s: string): nat
    requires AllDigits(s)
  {
    if s == [] then 0 else DigitsValue(s[..|s| - 1]) * 10 + DigitValue(s[|s| - 1])
  }

  /** `${n}` for a non-negative integer. */
  function NatToString(n: nat): (s: string)
    ensures |s| > 0 && AllDigits(s)
  {
    if n < 10 then [DigitChar(n)] else NatToString(n / 10) + [DigitChar(n % 10)]
  }

  /** Rendering a number and reading it back gives the number. */
  lemma {:induction false} NatToStringRoundTrip(n: nat)
    ensures DigitsValue(NatToString(n)) == n
  {
    if n >= 10 {
      var s := NatToString(n);
      assert s[..|s| - 1] == NatToString(n / 10);
      NatToStringRoundTrip(n / 10);
    }
  }

  lemma NatToStringInjective(a: nat, b: nat)
    requires NatToString(a) == NatToString(b)
    ensures a == b
  {
    NatToStringRoundTrip(a);
    NatToStringRoundTrip(b);
  }

  /** Leading zeros do not change the value of a digit string. */
  lemma {:induction false} LeadingZero(s: string)
    requires AllDigits(s)
    ensures AllDigits("0" + s) && DigitsValue("0" + s) == DigitsValue(s)
  {
    if s != [] {
      var t := "0" + s;
      assert t[..|t| - 1] == "0" + s[..|s| - 1];
      LeadingZero(s[..|s| - 1]);
    }
  }

  /** `Number(p)` on one part of a split string: the empty string is 0, a
      string of ASCII digits is its decimal value, anything else is NaN
      (None). Signs, surrounding whitespace, decimals, exponents and hex
      literals, which JavaScript also accepts, are not modelled. */
  function JsNumber(p: string): (r: Option<nat>)
    ensures r.Some? <==> AllDigits(p)
    ensures AllDigits(p) ==> r == Some(DigitsValue(p))
    ensures p == [] ==> r == Some(0)
  {
    if AllDigits(p) then Some(DigitsValue(p)) else None
  }

  /** `t` occurs in `s` starting at index `i`. */
  predicate OccursAt(s: string, t: string, i: int)
  {
    0 <= i && i + |t| <= |s| && s[i..i + |t|] == t
  }

  /** `s.includes(t)`. */
  function Contains(s: string, t: string): (r: bool)
    ensures r <==> exists i :: OccursAt(s, t, i)
    decreases |s|
  {
    if |t| > |s| then false
    else if s[..|t|] == t then assert OccursAt(s, t, 0); true
    else
      var r := Contains(s[1..], t);
      assert r ==> exists i :: OccursAt(s, t, i) by {
        if r {
          var i :| OccursAt(s[1..], t, i);
          assert s[i + 1..i + 1 + |t|] == s[1..][i..i + |t|];
          assert OccursAt(s, t, i + 1);
        }
      }
      assert (exists i :: OccursAt(s, t, i)) ==> r by {
        if exists i :: OccursAt(s, t, i) {
          var i :| OccursAt(s, t, i);
          assert i != 0;
          assert s[1..][i - 1..i - 1 + |t|] == s[i..i + |t|];
          assert OccursAt(s[1..], t, i - 1);
        }
      }
      r
  }

  /** The characters the regular-expression class `\s` matches. */
  predicate IsSpace(c: char)
  {
    c == ' ' || c == '\t' || c == '\n' || c == '\U{000B}' || c == '\U{000C}' || c == '\r'
    || c == '\U{00A0}' || c == '\U{1680}' || ('\U{2000}' <= c <= '\U{200A}')
    || c == '\U{2028}' || c == '\U{2029}' || c == '\U{202F}' || c == '\U{205F}'
    || c == '\U{3000}' || c == '\U{FEFF}'
  }

  predicate NoSpaces(s: string) { forall i :: 0 <= i < |s| ==> !IsSpace(s[i]) }

  predicate AllSpaces(s: string) { forall i :: 0 <= i < |s| ==> IsSpace(s[i]) }

  predicate IsUpper(c: char) { 'A' <= c <= 'Z' }

  predicate IsLower(c: char) { 'a' <= c <= 'z' }

  function LowerChar(c: char): char
  {
    if IsUpper(c) then (c as int + 32) as char else c
  }

  /** `s.toLowerCase()` on the ASCII letters. */
  function ToLower(s: string): string
  {
    seq(|s|, i requires 0 <= i < |s| => LowerChar(s[i]))
  }

  /** Lower-casing keeps the length, leaves no capital, turns every capital
      into the same letter in lower case and keeps every other character. */
  lemma ToLowerCharacters(s: string)
    ensures |ToLower(s)| == |s|
    ensures forall i :: 0 <= i < |s| ==> !IsUpper(ToLower(s)[i])
    ensures forall i :: 0 <= i < |s| && !IsUpper(s[i]) ==> ToLower(s)[i] == s[i]
    ensures forall i :: 0 <= i < |s| && IsUpper(s[i]) ==>
              IsLower(ToLower(s)[i]) && ToLower(s)[i] as int - 'a' as int == s[i] as int - 'A' as int
  {
  }

  /** Lower-casing twice is the same as lower-casing once. */
  lemma ToLowerIdempotent(s: string)
    ensures ToLower(ToLower(s)) == ToLower(s)
  {
  }

  /** The number of whitespace characters `s` starts with. */
  function LeadingSpaces(s: string): (n: nat)
    ensures n <= |s| && AllSpaces(s[..n])
    ensures n < |s| ==> !IsSpace(s[n])
  {
    if s == [] || !IsSpace(s[0]) then 0
    else
      var n := 1 + LeadingSpaces(s[1..]);
      assert s[..n] == [s[0]] + s[1..][..n - 1];
      n
  }

  /** `s.replace(/\s+/g, '-')`: every maximal run of whitespace becomes one `-`. */
  function Hyphenate(s: string): (r: string)
    ensures NoSpaces(r)
    decreases |s|
  {
    if s == [] then []
    else if IsSpace(s[0]) then "-" + Hyphenate(s[LeadingSpaces(s)..])
    else [s[0]] + Hyphenate(s[1..])
  }

  /** A string without whitespace is left as it is. */
  lemma {:induction false} HyphenateNoSpaces(s: string)
    requires NoSpaces(s)
    ensures Hyphenate(s) == s
  {
    if s != [] {
      HyphenateNoSpaces(s[1..]);
    }
  }

  /** Replacing the runs a second time changes nothing. */
  lemma HyphenateIdempotent(s: string)
    ensures Hyphenate(Hyphenate(s)) == Hyphenate(s)
  {
    HyphenateNoSpaces(Hyphenate(s));
  }

  /** A whole run of whitespace, with no whitespace on either side of it, is
      replaced by exactly one `-` and the text around it is handled alone. */
  lemma {:induction false} HyphenateRun(a: string, w: string, b: string)
    requires w != [] && AllSpaces(w)
    requires a == [] || !IsSpace(a[|a| - 1])
    requires b == [] || !IsSpace(b[0])
    ensures Hyphenate(a + w + b) == Hyphenate(a) + "-" + Hyphenate(b)
    decreases |a|
  {
    if a == [] {
      assert a + w + b == w + b;
      HyphenateLeadingRun(w, b);
    } else {
      var rest := a[HeadLength(a)..];
      assert rest == [] || rest[|rest| - 1] == a[|a| - 1];
      HyphenateRun(rest, w, b);
      assert rest + w + b == rest + (w + b) && a + w + b == a + (w + b);
      HyphenateRunStep(a, w + b, Hyphenate(b));
    }
  }

  /** One step of HyphenateRun: the head of `a` is emitted first. */
  lemma HyphenateRunStep(a: string, c: string, tail: string)
    requires a != [] && !IsSpace(a[|a| - 1])
    requires Hyphenate(a[HeadLength(a)..] + c) == Hyphenate(a[HeadLength(a)..]) + "-" + tail
    ensures Hyphenate(a + c) == Hyphenate(a) + "-" + tail
  {
    var rest, h := a[HeadLength(a)..], HeadText(a);
    HyphenateAfterHead(a, c);
    HyphenateStep(a);
    var x := Hyphenate(rest);
    assert h + (x + "-" + tail) == (h + x) + "-" + tail;
  }

  /** Hyphenate handles the head of `a` the same way whatever follows `a`. */
  lemma HyphenateAfterHead(a: string, c: string)
    requires a != [] && !IsSpace(a[|a| - 1])
    ensures Hyphenate(a + c) == HeadText(a) + Hyphenate(a[HeadLength(a)..] + c)
  {
    var s := a + c;
    var n := HeadLength(a);
    HeadOfExtension(a, c);
    assert s[n..] == a[n..] + c;
    HyphenateStep(s);
  }

  /** How many characters Hyphenate consumes at the start of `s`: its
      leading whitespace run, or its first character. */
  function HeadLength(s: string): (n: nat)
    requires s != []
    ensures 0 < n <= |s|
  {
    if IsSpace(s[0]) then LeadingSpaces(s) else 1
  }

  /** What Hyphenate emits for those characters. */
  function HeadText(s: string): string
    requires s != []
  {
    if IsSpace(s[0]) then "-" else [s[0]]
  }

  lemma HyphenateStep(s: string)
    requires s != []
    ensures Hyphenate(s) == HeadText(s) + Hyphenate(s[HeadLength(s)..])
  {
  }

  /** Appending text after a string that does not end in whitespace leaves
      the head unchanged. */
  lemma HeadOfExtension(a: string, c: string)
    requires a != [] && !IsSpace(a[|a| - 1])
    ensures HeadLength(a + c) == HeadLength(a)
    ensures HeadText(a + c) == HeadText(a)
  {
    assert (a + c)[0] == a[0];
    if IsSpace(a[0]) {
      var n := LeadingSpaces(a);
      LeadingSpacesOfPrefix(a, c);
    }
  }

  /** A string that starts with a whitespace run `w` followed by a
      non-whitespace character becomes `-` followed by the rest. */
  lemma HyphenateLeadingRun(w: string, b: string)
    requires w != [] && AllSpaces(w)
    requires b == [] || !IsSpace(b[0])
    ensures Hyphenate(w + b) == "-" + Hyphenate(b)
  {
    var s := w + b;
    assert s[0] == w[0];
    LeadingSpacesOfRun(w, b);
    assert s[|w|..] == b;
  }

  lemma {:induction false} LeadingSpacesOfRun(w: string, b: string)
    requires AllSpaces(w)
    requires b == [] || !IsSpace(b[0])
    ensures LeadingSpaces(w + b) == |w|
  {
    if w == [] {
      assert w + b == b;
    } else {
      var s := w + b;
      assert s[0] == w[0];
      assert s[1..] == w[1..] + b;
      LeadingSpacesOfRun(w[1..], b);
    }
  }

  lemma {:induction false} LeadingSpacesOfPrefix(a: string, c: string)
    requires LeadingSpaces(a) < |a|
    ensures LeadingSpaces(a + c) == LeadingSpaces(a)
  {
    if IsSpace(a[0]) {
      assert (a + c)[1..] == a[1..] + c;
      LeadingSpacesOfPrefix(a[1..], c);
    }
  }

  /** `s.split(sep)`. */
  function Split(s: string, sep: char): (parts: seq<string>)
    ensures |parts| >= 1
    ensures forall k :: 0 <= k < |parts| ==> sep !in parts[k]
  {
    if s == [] then [[]]
    else
      var rest := Split(s[1..], sep);
      if s[0] == sep then [[]] + rest
      else [[s[0]] + rest[0]] + rest[1..]
  }

  /** The inverse of `split`: `parts.join(sep)`. */
  function Join(parts: seq<string>, sep: char): string
    requires |parts| >= 1
  {
    if |parts| == 1 then parts[0] else parts[0] + [sep] + Join(parts[1..], sep)
  }

  /** Splitting loses nothing: joining the parts gives back the string. */
  lemma {:induction false} JoinSplit(s: string, sep: char)
    ensures Join(Split(s, sep), sep) == s
  {
    if s != [] {
      var rest := Split(s[1..], sep);
      JoinSplit(s[1..], sep);
      if s[0] != sep {
        var parts := Split(s, sep);
        assert parts[1..] == rest[1..];
        if |rest| > 1 {
          assert Join(rest, sep) == rest[0] + [sep] + Join(rest[1..], sep);
        }
      }
    }
  }

  /** A string without the separator is one part. */
  lemma {:induction false} SplitWithoutSep(a: string, sep: char)
    requires sep !in a
    ensures Split(a, sep) == [a]
  {
    if a != [] {
      assert a[0] != sep && [a[0]] + a[1..] == a;
      SplitWithoutSep(a[1..], sep);
    }
  }

  /** The first separator ends the first part. */
  lemma {:induction false} SplitAtFirst(a: string, sep: char, b: string)
    requires sep !in a
    ensures Split(a + [sep] + b, sep) == [a] + Split(b, sep)
  {
    var s := a + [sep] + b;
    if a == [] {
      assert s[1..] == b;
    } else {
      assert s[0] == a[0] != sep && [a[0]] + a[1..] == a;
      assert s[1..] == a[1..] + [sep] + b;
      SplitAtFirst(a[1..], sep, b);
    }
  }

  /** `n.toString().padStart(2, '0')`: one digit gets a leading zero,
      anything longer is left as it is. */
  function PadTwo(n: nat): (s: string)
    ensures |s| >= 2 && AllDigits(s) && DigitsValue(s) == n
    ensures n < 100 ==> |s| == 2
    ensures n >= 10 ==> s == NatToString(n)
  {
    var d := NatToString(n);
    NatToStringRoundTrip(n);
    if n < 10 then
      assert |d| == 1;
      LeadingZero(d); "0" + d
    else
      assert n < 100 ==> |d| == 2 by {
        if n < 100 {
          assert d == NatToString(n / 10) + [DigitChar(n % 10)];
        }
      }
      d
  }

  /** Where the leftmost run of digits begins and ends. */
  datatype Span = Span(start: nat, end: nat)

  /** The end of the run of digits that starts at `i`. */
  function RunEnd(s: string, i: nat): (e: nat)
    requires i < |s| && IsDigit(s[i])
    ensures i < e <= |s| && AllDigits(s[i..e])
    ensures e < |s| ==> !IsDigit(s[e])
    decreases |s| - i
  {
    if i + 1 < |s| && IsDigit(s[i + 1]) then
      var e := RunEnd(s, i + 1);
      assert s[i..e] == [s[i]] + s[i + 1..e];
      e
    else
      i + 1
  }

  /** The span of `s.match(/(\d+)/)[1]`: None when `s` holds no digit. */
  function FirstDigitRun(s: string): (r: Option<Span>)
    ensures r.None? <==> forall k :: 0 <= k < |s| ==> !IsDigit(s[k])
    ensures r.Some? ==> r.value.start < r.value.end <= |s|
    ensures r.Some? ==> AllDigits(s[r.value.start..r.value.end])
    ensures r.Some? ==> forall k :: 0 <= k < r.value.start ==> !IsDigit(s[k])
    ensures r.Some? && r.value.end < |s| ==> !IsDigit(s[r.value.end])
  {
    if s == [] then None
    else if IsDigit(s[0]) then Some(Span(0, RunEnd(s, 0)))
    else
      match FirstDigitRun(s[1..])
      case None => None
      case Some(sp) =>
        TailSlice(s, sp.start, sp.end);
        Some(Span(sp.start + 1, sp.end + 1))
  }

  lemma TailSlice(s: string, i: nat, j: nat)
    requires s != [] && i <= j <= |s| - 1
    ensures s[1..][i..j] == s[i + 1..j + 1]
  {
  }

  /** `parseInt(s.match(/(\d+)/)[1])`, or None when there is no match. */
  function FirstNumber(s: string): (r: Option<nat>)
    ensures r.Some? <==> exists k :: 0 <= k < |s| && IsDigit(s[k])
    ensures r.Some? ==> exists i, e :: LeftmostRun(s, i, e) && r.value == DigitsValue(s[i..e])
  {
    match FirstDigitRun(s)
    case None => None
    case Some(sp) =>
      assert LeftmostRun(s, sp.start, sp.end);
      Some(DigitsValue(s[sp.start..sp.end]))
  }

  /** `s[i..e]` is the leftmost maximal run of digits in `s`. */
  predicate LeftmostRun(s: string, i: int, e: int)
  {
    0 <= i < e <= |s| && AllDigits(s[i..e])
    && (forall k :: 0 <= k < i ==> !IsDigit(s[k]))
    && (e == |s| || !IsDigit(s[e]))
  }

  /** There is only one leftmost maximal run, so the number is determined. */
  lemma LeftmostRunUnique(s: string, i: int, e: int, i': int, e': int)
    requires LeftmostRun(s, i, e) && LeftmostRun(s, i', e')
    ensures i == i' && e == e'
  {
    forall k | i <= k < e ensures IsDigit(s[k]) {
      assert s[i..e][k - i] == s[k];
    }
    forall k | i' <= k < e' ensures IsDigit(s[k]) {
      assert s[i'..e'][k - i'] == s[k];
    }
    assert IsDigit(s[i]) && IsDigit(s[i']);
  }
}
